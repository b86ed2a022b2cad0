/**
 * The duration codec of the giveaway bot: `parseTime` turns text such as "1h30m"
 * into milliseconds and `formatTimeLeft` renders milliseconds as "1d 2h 3m 4s".
 */
module Duration {

  /** The `\d` class of a JavaScript regular expression: ASCII digits only. */
  predicate IsDigit(c: char) {
    '0' <= c <= '9'
  }

  /** The `[smhd]` class of the duration pattern. */
  predicate IsUnit(c: char) {
    c == 's' || c == 'm' || c == 'h' || c == 'd'
  }

  predicate AllDigits(s: string) {
    forall i :: 0 <= i < |s| ==> IsDigit(s[i])
  }

  function DigitValue(c: char): nat
    requires IsDigit(c)
  {
    (c as int - '0' as int) as nat
  }

  function DigitChar(d: nat): (c: char)
    requires d < 10
    ensures IsDigit(c) && DigitValue(c) == d
  {
    ('0' as int + d) as char
  }

  /** The length of each unit in seconds. */
  function UnitSeconds(unit: char): nat
    requires IsUnit(unit)
  {
    if unit == 's' then 1 else if unit == 'm' then 60 else if unit == 'h' then 3600 else 86400
  }

  /** What one token `<value><unit>` adds, as the `switch` of `parseTime` computes it. */
  function TokenMs(value: nat, unit: char): (ms: nat)
    requires IsUnit(unit)
    ensures ms == 1000 * (value * UnitSeconds(unit))
  {
    match unit
    case 's' => value * 1000
    case 'm' => value * 60 * 1000
    case 'h' => value * 60 * 60 * 1000
    case 'd' => value * 24 * 60 * 60 * 1000
  }

  /** Length of the maximal run of digits at the front of `s`. */
  function DigitRun(s: string): (n: nat)
    ensures n <= |s| && AllDigits(s[..n])
    ensures n < |s| ==> !IsDigit(s[n])
  {
    if s != [] && IsDigit(s[0]) then 1 + DigitRun(s[1..]) else 0
  }

  /** `parseInt` of a string of decimal digits (leading zeros allowed). */
  function DigitsValue(d: string): nat
    requires AllDigits(d)
  {
    if d == [] then 0 else 10 * DigitsValue(d[..|d| - 1]) + DigitValue(d[|d| - 1])
  }

  /** The decimal rendering of a natural number, as a template literal prints it. */
  function NatToString(n: nat): (s: string)
    ensures 1 <= |s| && AllDigits(s)
    ensures DigitsValue(s) == n
  {
    if n < 10 then [DigitChar(n)]
    else
      var s := NatToString(n / 10) + [DigitChar(n % 10)];
      assert s[..|s| - 1] == NatToString(n / 10);
      s
  }

  /**
   * The value of a duration text: every maximal digit run that is directly followed
   * by a unit letter contributes its value times the unit; all other characters,
   * including digit runs followed by anything else, are skipped.  This is what the
   * successive `exec` calls of the global pattern `(\d+)([smhd])` match.
   */
  function Parse(s: string): nat
    decreases |s|
  {
    if s == [] then 0
    else if !IsDigit(s[0]) then Parse(s[1..])
    else
      var n := DigitRun(s);
      if n < |s| && IsUnit(s[n]) then TokenMs(DigitsValue(s[..n]), s[n]) + Parse(s[n + 1..])
      else Parse(s[n..])
  }

  /** A digit run that ends where `s[i..j]` ends is exactly what DigitRun finds. */
  lemma {:induction false} DigitRunAt(s: string, i: nat, j: nat)
    requires i <= j <= |s| && AllDigits(s[i..j])
    requires j == |s| || !IsDigit(s[j])
    ensures DigitRun(s[i..]) == j - i
    decreases j - i
  {
    if i < j {
      assert s[i..][1..] == s[i + 1..];
      assert s[i..j][0] == s[i] && s[i + 1..j] == s[i..j][1..];
      DigitRunAt(s, i + 1, j);
    }
  }

  /** A character that cannot start a token is skipped. */
  lemma ParseSkip(s: string, i: nat)
    requires i < |s| && !IsDigit(s[i])
    ensures Parse(s[i..]) == Parse(s[i + 1..])
  {
    assert s[i..][1..] == s[i + 1..];
  }

  /** A maximal digit run `s[i..j]` is one token when a unit letter follows it, and is skipped otherwise. */
  lemma ParseRun(s: string, i: nat, j: nat)
    requires i < j <= |s| && AllDigits(s[i..j])
    requires j == |s| || !IsDigit(s[j])
    ensures j < |s| && IsUnit(s[j]) ==> Parse(s[i..]) == TokenMs(DigitsValue(s[i..j]), s[j]) + Parse(s[j + 1..])
    ensures !(j < |s| && IsUnit(s[j])) ==> Parse(s[i..]) == Parse(s[j..])
  {
    var rest := s[i..];
    DigitRunAt(s, i, j);
    assert rest[0] == s[i..j][0];
    assert rest[..j - i] == s[i..j];
    assert rest[j - i..] == s[j..];
    if j < |s| {
      assert rest[j - i + 1..] == s[j + 1..];
    }
  }

  /** Appending a digit shifts the value one decimal place. */
  lemma DigitsSnoc(s: string, i: nat, j: nat)
    requires i <= j < |s| && AllDigits(s[i..j]) && IsDigit(s[j])
    ensures AllDigits(s[i..j + 1]) && DigitsValue(s[i..j + 1]) == 10 * DigitsValue(s[i..j]) + DigitValue(s[j])
  {
    var d := s[i..j + 1];
    assert d == s[i..j] + [s[j]];
    assert d[..|d| - 1] == s[i..j] && d[|d| - 1] == s[j];
  }

  /** Reads the maximal digit run starting at `i` (the `(\d+)` group) and its value. */
  method ReadDigits(s: string, i: nat) returns (j: nat, value: nat)
    requires i < |s| && IsDigit(s[i])
    ensures i < j <= |s| && AllDigits(s[i..j]) && (j == |s| || !IsDigit(s[j]))
    ensures value == DigitsValue(s[i..j])
  {
    j := i;
    value := 0;
    while j < |s| && IsDigit(s[j])
      invariant i <= j <= |s| && AllDigits(s[i..j])
      invariant value == DigitsValue(s[i..j])
    {
      DigitsSnoc(s, i, j);
      value := 10 * value + DigitValue(s[j]);
      j := j + 1;
    }
  }

  /**
   * One attempt of the pattern at a digit: the maximal digit run, plus the unit letter
   * when one follows.  `ms` is what the attempt adds to the total (0 when no unit
   * follows) and `next` is where scanning resumes.
   */
  method ReadToken(s: string, i: nat) returns (next: nat, ms: nat)
    requires i < |s| && IsDigit(s[i])
    ensures i < next <= |s|
    ensures Parse(s[i..]) == ms + Parse(s[next..])
  {
    var j, value := ReadDigits(s, i);
    ParseRun(s, i, j);
    if j < |s| && IsUnit(s[j]) {
      ms := TokenMs(value, s[j]);
      next := j + 1;
    } else {
      ms := 0;
      next := j;
    }
  }

  /**
   * parseTime (index.js:125-143).  The loop walks the text the way the regular
   * expression engine does between two `exec` calls: it skips characters that
   * cannot start a match, reads a maximal digit run, and adds its value when a
   * unit letter follows.
   */
  method ParseTime(timeString: string) returns (totalMs: nat)
    ensures totalMs == Parse(timeString)
  {
    totalMs := 0;
    var i := 0;
    while i < |timeString|
      invariant 0 <= i <= |timeString|
      invariant totalMs + Parse(timeString[i..]) == Parse(timeString)
    {
      if !IsDigit(timeString[i]) {
        ParseSkip(timeString, i);
        i := i + 1;
      } else {
        var next, ms := ReadToken(timeString, i);
        totalMs := totalMs + ms;
        i := next;
      }
    }
    assert timeString[i..] == [];
  }

  /** Every parsed duration is a whole number of seconds. */
  lemma {:induction false} ParseWholeSeconds(s: string)
    ensures Parse(s) % 1000 == 0
    decreases |s|
  {
    if s != [] {
      if !IsDigit(s[0]) {
        ParseWholeSeconds(s[1..]);
      } else {
        var n := DigitRun(s);
        if n < |s| && IsUnit(s[n]) {
          ParseWholeSeconds(s[n + 1..]);
          var t := TokenMs(DigitsValue(s[..n]), s[n]);
          TokenWholeSeconds(DigitsValue(s[..n]), s[n]);
          assert Parse(s) == t + Parse(s[n + 1..]);
          WholeSecondsSum(t, Parse(s[n + 1..]));
        } else {
          ParseWholeSeconds(s[n..]);
        }
      }
    }
  }

  /** Every unit is a whole number of seconds. */
  lemma TokenWholeSeconds(value: nat, unit: char)
    requires IsUnit(unit)
    ensures TokenMs(value, unit) % 1000 == 0
  {
    var seconds := match unit case 's' => value case 'm' => value * 60 case 'h' => value * 3600 case 'd' => value * 86400;
    assert TokenMs(value, unit) == 1000 * seconds;
  }

  /** A sum of whole seconds is whole seconds. */
  lemma WholeSecondsSum(a: nat, b: nat)
    requires a % 1000 == 0 && b % 1000 == 0
    ensures (a + b) % 1000 == 0
  {
    assert a + b == 1000 * (a / 1000 + b / 1000);
  }

  /** Empty, or ending in a character that cannot be part of a digit run. */
  predicate EndsOutsideToken(s: string) {
    s == [] || !IsDigit(s[|s| - 1])
  }

  /**
   * Tokens never straddle a non-digit, so a text that is empty or ends in a
   * non-digit parses independently of what follows it.
   */
  lemma {:induction false} ParseAppend(a: string, b: string)
    requires EndsOutsideToken(a)
    ensures Parse(a + b) == Parse(a) + Parse(b)
    decreases |a|
  {
    if a == [] {
      assert a + b == b;
    } else if !IsDigit(a[0]) {
      assert (a + b)[1..] == a[1..] + b;
      ParseAppend(a[1..], b);
    } else {
      var n := DigitRun(a);
      assert n < |a|;
      DigitRunAt(a + b, 0, n);
      assert (a + b)[0..] == a + b;
      assert (a + b)[..n] == a[..n];
      if IsUnit(a[n]) {
        assert (a + b)[n + 1..] == a[n + 1..] + b;
        ParseAppend(a[n + 1..], b);
      } else {
        assert (a + b)[n..] == a[n..] + b;
        ParseAppend(a[n..], b);
      }
    }
  }

  /** `parseTime("1h30m")`, `parseTime("abc")` and `parseTime("0h")`. */
  lemma ParseExamples()
    ensures Parse("1h30m") == 5400000
    ensures Parse("abc") == 0
    ensures Parse("0h") == 0
  {
    ParseHourAndHalf();
    assert Parse("abc"[1..][1..][1..]) == 0;
    DigitRunAt("0h", 0, 1);
  }

  /** `parseTime("1h30m")` is an hour and a half. */
  lemma ParseHourAndHalf()
    ensures Parse("1h30m") == 5400000
  {
    var s := "1h30m";
    ParseRun(s, 0, 1);
    assert s[0..] == s && s[0..1] == "1" && s[2..] == "30m";
    ParseHalfHour();
  }

  /** `parseTime("30m")` is half an hour. */
  lemma ParseHalfHour()
    ensures Parse("30m") == 1800000
  {
    var s := "30m";
    ParseRun(s, 0, 2);
    assert s[0..] == s && s[0..2] == "30" && "30"[..1] == "3" && s[3..] == [];
  }

  /** JavaScript's `%`: the remainder takes the sign of the dividend. */
  function JsRem(a: int, b: int): (r: int)
    requires b > 0
    ensures a >= 0 ==> r == a % b
    ensures -b < r <= 0 || 0 <= r < b
    ensures a < 0 ==> -b < r <= 0
  {
    if a >= 0 then a % b else -((-a) % b)
  }

  datatype Parts = Parts(days: int, hours: int, minutes: int, seconds: int)

  /** Taking the remainder by a whole number of the next smaller unit first does not change that unit's remainder. */
  lemma NestedRemainders(a: int)
    ensures a % 86400000 % 3600000 == a % 3600000
    ensures a % 3600000 % 60000 == a % 60000
    ensures a % 60000 % 1000 == a % 1000
  {
    var d, h, m := a / 86400000, a / 3600000, a / 60000;
    var s := a / 1000;
    assert a % 86400000 == 3600000 * (h - 24 * d) + a % 3600000;
    assert a % 3600000 == 60000 * (m - 60 * h) + a % 60000;
    assert a % 60000 == 1000 * (s - 60 * m) + a % 1000;
  }

  /**
   * The four components of `formatTimeLeft` (index.js:110-113).  `Math.floor(x / y)`
   * with a positive `y` is Dafny's `x / y`; the inner `%` is JavaScript's.  For a
   * non-negative count the components add back up to the count truncated to whole
   * seconds and each is below its unit's bound; for a negative count none is positive.
   */
  function Split(ms: int): (p: Parts)
    ensures ms >= 0 ==>
      p.days * 86400000 + p.hours * 3600000 + p.minutes * 60000 + p.seconds * 1000 == ms - ms % 1000
    ensures ms >= 0 ==> p.days >= 0 && 0 <= p.hours < 24 && 0 <= p.minutes < 60 && 0 <= p.seconds < 60
    ensures ms < 0 ==> p.days < 0 && p.hours <= 0 && p.minutes <= 0 && p.seconds <= 0
  {
    NestedRemainders(ms);
    Parts(ms / 86400000, JsRem(ms, 86400000) / 3600000, JsRem(ms, 3600000) / 60000, JsRem(ms, 60000) / 1000)
  }

  /** One `if (x > 0) result += ...` step of `formatTimeLeft`. */
  function Component(n: int, unit: char, sep: string): string {
    if n > 0 then NatToString(n) + ([unit] + sep) else ""
  }

  /** The text `formatTimeLeft` returns. */
  function Format(ms: int): string {
    var r := Joined(Split(ms));
    if r == "" then "0s" else r
  }

  lemma ParseComponent(n: int, unit: char, sep: string)
    requires IsUnit(unit) && (sep == "" || sep == " ")
    ensures Parse(Component(n, unit, sep)) == if n > 0 then TokenMs(n, unit) else 0
    ensures EndsOutsideToken(Component(n, unit, sep))
  {
    if n > 0 {
      var d := NatToString(n);
      var s := d + ([unit] + sep);
      DigitRunAt(s, 0, |d|);
      assert s[0..] == s;
      assert s[..|d|] == d;
      assert s[|d| + 1..] == sep;
      assert Parse(sep) == 0 by {
        if sep == " " { assert sep[1..] == []; }
      }
    }
  }

  /** The four components of `formatTimeLeft` before the "0s" fallback. */
  function Joined(p: Parts): string {
    Component(p.days, 'd', " ") + Component(p.hours, 'h', " ")
    + Component(p.minutes, 'm', " ") + Component(p.seconds, 's', "")
  }

  lemma ParseFour(c1: string, c2: string, c3: string, c4: string)
    requires EndsOutsideToken(c1) && EndsOutsideToken(c2) && EndsOutsideToken(c3)
    ensures Parse(c1 + c2 + c3 + c4) == Parse(c1) + Parse(c2) + Parse(c3) + Parse(c4)
  {
    assert c1 + c2 + c3 + c4 == c1 + (c2 + (c3 + c4));
    ParseAppend(c3, c4);
    ParseAppend(c2, c3 + c4);
    ParseAppend(c1, c2 + (c3 + c4));
  }

  lemma ParseJoined(p: Parts)
    ensures Parse(Joined(p)) == (if p.days > 0 then TokenMs(p.days, 'd') else 0)
                              + (if p.hours > 0 then TokenMs(p.hours, 'h') else 0)
                              + (if p.minutes > 0 then TokenMs(p.minutes, 'm') else 0)
                              + (if p.seconds > 0 then TokenMs(p.seconds, 's') else 0)
  {
    ParseComponent(p.days, 'd', " ");
    ParseComponent(p.hours, 'h', " ");
    ParseComponent(p.minutes, 'm', " ");
    ParseComponent(p.seconds, 's', "");
    ParseFour(Component(p.days, 'd', " "), Component(p.hours, 'h', " "),
              Component(p.minutes, 'm', " "), Component(p.seconds, 's', ""));
  }

  /** The fallback text "0s" parses back to zero. */
  lemma ParseZeroSeconds()
    ensures Parse("0s") == 0
  {
    DigitRunAt("0s", 0, 1);
    assert "0s"[0..] == "0s" && "0s"[..1] == "0" && "0s"[2..] == [];
  }

  /** Round trip: parsing what `formatTimeLeft` prints gives the count truncated to whole seconds. */
  lemma FormatRoundTrip(ms: int)
    requires ms >= 0
    ensures Parse(Format(ms)) == ms - ms % 1000
  {
    var p := Split(ms);
    ParseJoined(p);
    UnitSum(p);
    if Joined(p) == "" {
      JoinedEmpty(p);
      ParseZeroSeconds();
    }
  }

  /** With no negative component, the tokens add up to the components' weighted sum. */
  lemma UnitSum(p: Parts)
    requires p.days >= 0 && p.hours >= 0 && p.minutes >= 0 && p.seconds >= 0
    ensures (if p.days > 0 then TokenMs(p.days, 'd') else 0)
            + (if p.hours > 0 then TokenMs(p.hours, 'h') else 0)
            + (if p.minutes > 0 then TokenMs(p.minutes, 'm') else 0)
            + (if p.seconds > 0 then TokenMs(p.seconds, 's') else 0)
            == p.days * 86400000 + p.hours * 3600000 + p.minutes * 60000 + p.seconds * 1000
  {
  }

  /** The four components print nothing exactly when none of them is positive. */
  lemma JoinedEmpty(p: Parts)
    ensures Joined(p) == "" <==> p.days <= 0 && p.hours <= 0 && p.minutes <= 0 && p.seconds <= 0
  {
    if p.days > 0 { assert |Joined(p)| >= |Component(p.days, 'd', " ")| > 0; }
    if p.hours > 0 { assert |Joined(p)| >= |Component(p.hours, 'h', " ")| > 0; }
    if p.minutes > 0 { assert |Joined(p)| >= |Component(p.minutes, 'm', " ")| > 0; }
    if p.seconds > 0 { assert |Joined(p)| >= |Component(p.seconds, 's', "")| > 0; }
  }

  /** `formatTimeLeft` falls back to "0s" exactly when less than one second is left, negative counts included. */
  lemma FormatZeroExactlyBelowOneSecond(ms: int)
    ensures Format(ms) == "0s" <==> ms < 1000
  {
    var p := Split(ms);
    if ms < 1000 {
      assert p.days <= 0 && p.hours <= 0 && p.minutes <= 0 && p.seconds <= 0;
    } else {
      FormatRoundTrip(ms);
      FormatRoundTrip(0);
    }
  }

  /** One `if (x > 0) result += `${x}<unit><sep>`` step of `formatTimeLeft` (index.js:116-119). */
  method AppendComponent(result: string, n: int, unit: char, sep: string) returns (r: string)
    ensures r == result + Component(n, unit, sep)
  {
    r := result;
    if n > 0 {
      r := r + (NatToString(n) + ([unit] + sep));
    }
  }

  /**
   * formatTimeLeft (index.js:109-122): the four components, then the text built with `+=`.
   */
  method FormatTimeLeft(ms: int) returns (result: string)
    ensures result == Format(ms)
    ensures ms >= 0 ==> Parse(result) == ms - ms % 1000
    ensures result == "0s" <==> ms < 1000
  {
    var days := ms / (24 * 60 * 60 * 1000);
    var hours := JsRem(ms, 24 * 60 * 60 * 1000) / (60 * 60 * 1000);
    var minutes := JsRem(ms, 60 * 60 * 1000) / (60 * 1000);
    var seconds := JsRem(ms, 60 * 1000) / 1000;

    ghost var p := Parts(days, hours, minutes, seconds);
    assert p == Split(ms);

    result := "";
    result := AppendComponent(result, days, 'd', " ");
    assert result == Component(days, 'd', " ");
    result := AppendComponent(result, hours, 'h', " ");
    result := AppendComponent(result, minutes, 'm', " ");
    result := AppendComponent(result, seconds, 's', "");
    assert result == Joined(p);
    if result == "" { result := "0s"; }

    if ms >= 0 { FormatRoundTrip(ms); }
    FormatZeroExactlyBelowOneSecond(ms);
  }
}
