/** time_print and time_parse: relative times in milliseconds as text. */
module TimeText {

  datatype Result = Ok(ms: nat) | Twice | Malformed | TooLarge

  predicate IsDigit(c: char) {
    '0' <= c <= '9'
  }

  ghost predicate AllDigits(s: string) {
    forall i :: 0 <= i < |s| ==> IsDigit(s[i])
  }

  function DigitOf(c: char): nat
    requires IsDigit(c)
  {
    c as int - '0' as int
  }

  /** The number that a string of digits denotes. */
  function Number(s: string): nat
    requires AllDigits(s)
  {
    if s == "" then 0 else 10 * Number(s[..|s| - 1]) + DigitOf(s[|s| - 1])
  }

  /** A number as printf writes it. */
  function Decimal(n: nat): (s: string)
    ensures s != "" && AllDigits(s)
  {
    if n < 10 then [('0' as int + n) as char] else Decimal(n / 10) + [('0' as int + n % 10) as char]
  }

  lemma {:induction false} DecimalNumber(n: nat)
    ensures Number(Decimal(n)) == n
  {
    var s := Decimal(n);
    if n < 10 {
      assert s[..0] == "";
    } else {
      assert s[..|s| - 1] == Decimal(n / 10);
      DecimalNumber(n / 10);
    }
  }

  function Pow10(n: nat): (p: nat)
    ensures p > 0
  {
    if n == 0 then 1 else 10 * Pow10(n - 1)
  }

  lemma {:induction false} DecimalLength(n: nat, k: nat)
    requires k > 0
    ensures |Decimal(n)| <= k <==> n < Pow10(k)
  {
    if n >= 10 {
      if k > 1 {
        DecimalLength(n / 10, k - 1);
      } else {
        assert Pow10(1) == 10;
      }
    } else if k > 1 {
      DecimalLength(0, k - 1);
    }
  }

  /** How many digits a string starts with. */
  function Leading(s: string): (k: nat)
    ensures k <= |s| && AllDigits(s[..k])
  {
    if s == "" || !IsDigit(s[0]) then 0 else
      var k := Leading(s[1..]);
      assert s[..k + 1] == [s[0]] + s[1..][..k];
      k + 1
  }

  /** str2int: what sscanf reads, and 0 if there is no digit. */
  function Str2Int(s: string): nat {
    Number(s[..Leading(s)])
  }

  lemma {:induction false} LeadingIs(w: string, rest: string)
    requires AllDigits(w) && (rest == "" || !IsDigit(rest[0]))
    ensures Leading(w + rest) == |w|
  {
    if w == "" {
      assert w + rest == rest;
    } else {
      assert (w + rest)[1..] == w[1..] + rest;
      LeadingIs(w[1..], rest);
    }
  }

  /** The five counts, which of them were seen, and the digits since the last unit. */
  datatype Clock = Clock(d: nat, h: nat, m: nat, s: nat, ms: nat,
                         day: bool, hour: bool, min: bool, secs: bool, msecs: bool, k: nat)

  function Total(c: Clock): nat {
    24 * 60 * 60 * 1000 * c.d + 60 * 60 * 1000 * c.h + 60 * 1000 * c.m + 1000 * c.s + c.ms
  }

  function Fresh(): Clock {
    Clock(0, 0, 0, 0, 0, false, false, false, false, false, 0)
  }

  /** What a unit letter at position i does; the result is the next position. */
  datatype Next = Next(i: nat, clock: Clock) | Stop(why: Result)

  function Step(str: string, i: nat, c: Clock): (n: Next)
    requires i < |str| && c.k <= i
    ensures n.Next? ==> i < n.i && n.clock.k <= n.i && n.i <= |str|
  {
    var value := Str2Int(str[i - c.k..]);
    match str[i]
    case 'd' => if c.day then Stop(Twice) else Next(i + 1, c.(d := value, day := true, k := 0))
    case 'h' => if c.hour then Stop(Twice) else Next(i + 1, c.(h := value, hour := true, k := 0))
    case 'm' =>
      if str[i..] == "ms" then
        if c.msecs then Stop(Twice) else Next(i + 2, c.(ms := value, msecs := true, k := 0))
      else if c.min then Stop(Twice)
      else Next(i + 1, c.(m := value, min := true, k := 0))
    case 's' => if c.secs then Stop(Twice) else Next(i + 1, c.(s := value, secs := true, k := 0))
    case ch =>
      if !IsDigit(ch) then Stop(Malformed)
      else if c.k >= 8 then Stop(TooLarge)
      else Next(i + 1, c.(k := c.k + 1))
  }

  /** The scan from position i on. */
  function Scan(str: string, i: nat, c: Clock): Result
    requires i <= |str| && c.k <= i
    decreases |str| - i
  {
    if i == |str| then
      if c.day || c.hour || c.min || c.secs || c.msecs then Ok(Total(c)) else Ok(Str2Int(str) * 1000)
    else
      match Step(str, i, c)
      case Stop(why) => why
      case Next(i', c') => Scan(str, i', c')
  }

  lemma ScanNext(str: string, i: nat, c: Clock)
    requires i <= |str| && c.k <= i
    ensures i < |str| ==>
              Scan(str, i, c) == match Step(str, i, c) case Stop(why) => why case Next(i', c') => Scan(str, i', c')
    ensures i == |str| ==> Scan(str, i, c) ==
                           if c.day || c.hour || c.min || c.secs
                             || c.msecs then Ok(Total(c)) else Ok(Str2Int(str) * 1000)
  {
  }

  lemma StepDigit(str: string, i: nat, c: Clock)
    requires i < |str| && c.k <= i && IsDigit(str[i])
    ensures Step(str, i, c) == if c.k >= 8 then Stop(TooLarge) else Next(i + 1, c.(k := c.k + 1))
  {
  }

  /** Digits only advance the count, until there are more than eight of them. */
  lemma {:induction false} ScanDigits(str: string, p: nat, w: string, c: Clock)
    requires c.k <= p && p + |w| <= |str| && str[p..p + |w|] == w && AllDigits(w)
    ensures c.k + |w| <= 8 ==> Scan(str, p, c) == Scan(str, p + |w|, c.(k := c.k + |w|))
    ensures c.k <= 8 < c.k + |w| ==> Scan(str, p, c) == TooLarge
    decreases |w|
  {
    hide Scan, Step;
    if w == "" {
      assert c == c.(k := c.k);
    } else {
      assert str[p] == w[0];
      var c' := c.(k := c.k + 1);
      ScanNext(str, p, c);
      StepDigit(str, p, c);
      if c.k < 8 {
        assert str[p + 1..p + 1 + |w[1..]|] == w[1..];
        ScanDigits(str, p + 1, w[1..], c');
        assert c'.(k := c'.k + |w[1..]|) == c.(k := c.k + |w|);
      }
    }
  }

  /** A number and its unit, or nothing for zero. */
  function Part(n: nat, unit: string): string {
    if n > 0 then Decimal(n) + unit else ""
  }

  /** What str2int reads at a unit that follows a number. */
  lemma ReadBack(str: string, p: nat, n: nat, rest: string)
    requires p <= |str| && str[p..] == Decimal(n) + rest && rest != "" && !IsDigit(rest[0])
    ensures Str2Int(str[p..]) == n
  {
    LeadingIs(Decimal(n), rest);
    DecimalNumber(n);
    assert (Decimal(n) + rest)[..|Decimal(n)|] == Decimal(n);
  }

  lemma EightDigits(n: nat)
    ensures |Decimal(n)| <= 8 <==> n < 100000000
  {
    assert Pow10(8) == 100000000;
    DecimalLength(n, 8);
  }

  /** Scanning a number of at most eight digits and its unit stores the number. */
  lemma ScanPart(str: string, p: nat, n: nat, rest: string, c: Clock)
    requires p <= |str| && str[p..] == Decimal(n) + rest && rest != "" && !IsDigit(rest[0]) && c.k == 0
    ensures n >= 100000000 ==> Scan(str, p, c) == TooLarge
    ensures n < 100000000 ==> var i, c' := p + |Decimal(n)|, c.(k := |Decimal(n)|);
                              && str[i..] == rest && i < |str| && Scan(str, p, c) == Scan(str, i, c')
                              && Str2Int(str[i - c'.k..]) == n
  {
    hide Scan, Decimal, Str2Int, Pow10;
    var w := Decimal(n);
    assert str[p..p + |w|] == str[p..][..|w|] == w;
    EightDigits(n);
    ScanDigits(str, p, w, c);
    ReadBack(str, p, n, rest);
    assert str[p + |w|..] == str[p..][|w|..] == rest;
  }

  /** A part and its unit, for a unit other than milliseconds. */
  lemma ScanUnit(str: string, p: nat, n: nat, unit: char, rest: string, c: Clock)
    requires p <= |str| && str[p..] == Part(n, [unit]) + rest && c.k == 0 && 0 < n < 100000000
    requires (unit == 'd' && !c.day) || (unit == 'h' && !c.hour) || (unit == 's' && !c.secs)
             || (unit == 'm' && !c.min && rest != "s")
    ensures var i := p + |Part(n, [unit])|;
            && i <= |str| && str[i..] == rest
            && Scan(str, p, c) == Scan(str, i, match unit
                                               case 'd' => c.(d := n, day := true)
                                               case 'h' => c.(h := n, hour := true)
                                               case 'm' => c.(m := n, min := true)
                                               case _ => c.(s := n, secs := true))
  {
    hide Scan, Decimal, Str2Int;
    assert str[p..] == Decimal(n) + ([unit] + rest);
    ScanPart(str, p, n, [unit] + rest, c);
    var i, c' := p + |Decimal(n)|, c.(k := |Decimal(n)|);
    assert str[i] == unit && str[i + 1..] == str[i..][1..] == rest;
    if unit == 'm' {
      assert str[i..][1..] == rest && "ms"[1..] == "s";
    }
    ScanNext(str, i, c');
  }

  lemma ScanMs(str: string, p: nat, n: nat, c: Clock)
    requires p <= |str| && str[p..] == Part(n, "ms") && c.k == 0 && 0 < n < 100000000 && !c.msecs
    ensures Scan(str, p, c) == Ok(Total(c.(ms := n)))
  {
    hide Scan, Decimal, Str2Int, Total;
    ScanPart(str, p, n, "ms", c);
    var i, c' := p + |Decimal(n)|, c.(k := |Decimal(n)|);
    ScanNext(str, i, c');
    ScanNext(str, i + 2, c'.(ms := n, msecs := true, k := 0));
    TotalK(c', n);
  }

  lemma TotalK(c: Clock, n: nat)
    ensures Total(c.(ms := n, msecs := true, k := 0)) == Total(c.(ms := n, k := 0)) == Total(c.(ms := n))
  {
  }

  /**
   The text of a time: its parts in whole units, each below the next larger unit, largest unit
   first, zeros left out.
   */
  ghost predicate LargestFirst(out: string, time: nat) {
    var d, h, m, s, ms := time / 86400000, time / 3600000 % 24, time / 60000 % 60, time / 1000 % 60, time % 1000;
    out == if time == 0 then "0s" else
             (if d > 0 then Decimal(d) + "d" else "")
             + ((if h > 0 then Decimal(h) + "h" else "")
                + ((if m > 0 then Decimal(m) + "m" else "")
                   + ((if s > 0 then Decimal(s) + "s" else "") + if ms > 0 then Decimal(ms) + "ms" else "")))
  }

  lemma PrintedLargestFirst(time: nat, d: nat, h: nat, m: nat, s: nat, ms: nat)
    requires h < 24 && m < 60 && s < 60 && ms < 1000
    requires time == 86400000 * d + 3600000 * h + 60000 * m + 1000 * s + ms
    ensures LargestFirst(Printed(d, h, m, s, ms), time)
  {
    hide Decimal;
    Units(time, d, h, m, s, ms);
    assert time == 0 <==> d == h == m == s == ms == 0;
  }

  lemma Units(time: nat, d: nat, h: nat, m: nat, s: nat, ms: nat)
    requires h < 24 && m < 60 && s < 60 && ms < 1000
    requires time == 86400000 * d + 3600000 * h + 60000 * m + 1000 * s + ms
    ensures d == time / 86400000 && h == time / 3600000 % 24 && m == time / 60000 % 60 && s == time / 1000 % 60
            && ms == time % 1000
  {
    assert time / 1000 == 86400 * d + 3600 * h + 60 * m + s;
    assert time / 60000 == 1440 * d + 60 * h + m;
    assert time / 3600000 == 24 * d + h;
  }

  /** time_print in the normal mode; the quotients are taken out one after the other. */
  method TimePrint(time: nat) returns (out: string)
    ensures time / 86400000 < 100000000 ==> Scan(out, 0, Fresh()) == Ok(time)
    ensures time / 86400000 >= 100000000 ==> Scan(out, 0, Fresh()) == TooLarge
    ensures LargestFirst(out, time)
  {
    hide Scan, Decimal, LargestFirst;
    var ms := time;
    var days := ms / 86400000;
    ms := ms % 86400000;
    var hours := ms / 3600000;
    ms := ms % 3600000;
    var minutes := ms / 60000;
    ms := ms % 60000;
    var seconds := ms / 1000;
    ms := ms % 1000;
    var printed := false;
    out := "";
    NoPart(out);
    if days > 0 {
      out := out + (Decimal(days) + "d");
      printed := true;
    }
    assert out == "" + Part(days, "d");
    NoPart(out);
    if hours > 0 {
      out := out + (Decimal(hours) + "h");
      printed := true;
    }
    assert out == "" + Part(days, "d") + Part(hours, "h");
    NoPart(out);
    if minutes > 0 {
      out := out + (Decimal(minutes) + "m");
      printed := true;
    }
    assert out == "" + Part(days, "d") + Part(hours, "h") + Part(minutes, "m");
    NoPart(out);
    if seconds > 0 {
      out := out + (Decimal(seconds) + "s");
      printed := true;
    }
    assert out == "" + Part(days, "d") + Part(hours, "h") + Part(minutes, "m") + Part(seconds, "s");
    NoPart(out);
    if ms > 0 {
      out := out + (Decimal(ms) + "ms");
      printed := true;
    }
    assert out == "" + Part(days, "d") + Part(hours, "h") + Part(minutes, "m") + Part(seconds, "s") + Part(ms, "ms");
    if !printed {
      out := out + "0s";
      assert out == "0s";
    }
    Joined(Part(days, "d"), Part(hours, "h"), Part(minutes, "m"), Part(seconds, "s"), Part(ms, "ms"));
    Splits(time);
    PrintedParses(days, hours, minutes, seconds, ms);
    PrintedLargestFirst(time, days, hours, minutes, seconds, ms);
  }

  lemma NoPart(out: string)
    ensures forall unit :: out + Part(0, unit) == out
  {
  }

  lemma Joined(a: string, b: string, c: string, d: string, e: string)
    ensures "" + a + b + c + d + e == a + (b + (c + (d + e)))
  {
  }

  lemma Splits(time: nat)
    ensures var a, b, c := time % 86400000, time % 86400000 % 3600000, time % 86400000 % 3600000 % 60000;
            && a / 3600000 < 24 && b / 60000 < 60 && c / 1000 < 60
            && time == 86400000 * (time / 86400000) + 3600000 * (a / 3600000) + 60000 * (b / 60000)
                       + 1000 * (c / 1000) + c % 1000
  {
  }

  function Printed(days: nat, hours: nat, minutes: nat, seconds: nat, ms: nat): string {
    if days == hours == minutes == seconds == ms == 0 then "0s" else
      Part(days, "d") + (Part(hours, "h") + (Part(minutes, "m") + (Part(seconds, "s") + Part(ms, "ms"))))
  }

  /** Scanning one part that may be absent. */
  lemma ScanMaybe(str: string, p: nat, n: nat, unit: char, rest: string, c: Clock) returns (i: nat, c': Clock)
    requires p <= |str| && str[p..] == Part(n, [unit]) + rest && c.k == 0 && n < 100000000
    requires (unit == 'd' && !c.day && c.d == 0) || (unit == 'h' && !c.hour && c.h == 0)
             || (unit == 's' && !c.secs && c.s == 0)
             || (unit == 'm' && !c.min && c.m == 0 && rest != "s")
    ensures i <= |str| && str[i..] == rest && c'.k == 0 && Scan(str, p, c) == Scan(str, i, c')
    ensures unit == 'd' ==> c' == c.(d := n, day := n > 0)
    ensures unit == 'h' ==> c' == c.(h := n, hour := n > 0)
    ensures unit == 'm' ==> c' == c.(m := n, min := n > 0)
    ensures unit == 's' ==> c' == c.(s := n, secs := n > 0)
  {
    hide Scan, Decimal;
    i, c' := p, c;
    if n > 0 {
      ScanUnit(str, p, n, unit, rest, c);
      i := p + |Part(n, [unit])|;
      c' := match unit
            case 'd' => c.(d := n, day := true)
            case 'h' => c.(h := n, hour := true)
            case 'm' => c.(m := n, min := true)
            case _ => c.(s := n, secs := true);
    } else {
      assert str[p..] == "" + rest == rest;
    }
  }

  /** Nothing after the minutes looks like the rest of "ms". */
  lemma NotMs(seconds: nat, ms: nat)
    ensures Part(seconds, "s") + Part(ms, "ms") != "s"
  {
    var s := Part(seconds, "s") + Part(ms, "ms");
    assert s != "" ==> IsDigit(s[0]);
  }

  lemma PrintedParses(days: nat, hours: nat, minutes: nat, seconds: nat, ms: nat)
    requires hours < 24 && minutes < 60 && seconds < 60 && ms < 1000
    ensures var out := Printed(days, hours, minutes, seconds, ms);
            if days >= 100000000 then Scan(out, 0, Fresh()) == TooLarge
            else Scan(out, 0, Fresh()) == Ok(86400000 * days + 3600000 * hours + 60000 * minutes + 1000 * seconds + ms)
  {
    hide Scan, Decimal, Part, Str2Int;
    var out := Printed(days, hours, minutes, seconds, ms);
    var c := Fresh();
    if days == hours == minutes == seconds == ms == 0 {
      ZeroSeconds();
    } else {
      assert out[0..] == out;
      var r4 := Part(seconds, "s") + Part(ms, "ms");
      var r3 := Part(minutes, "m") + r4;
      var r2 := Part(hours, "h") + r3;
      if days >= 100000000 {
        TooManyDays(out, days, r2);
      } else {
        var i, c1 := ScanMaybe(out, 0, days, 'd', r2, c);
        var j, c2 := ScanMaybe(out, i, hours, 'h', r3, c1);
        NotMs(seconds, ms);
        var k, c3 := ScanMaybe(out, j, minutes, 'm', r4, c2);
        var l, c4 := ScanMaybe(out, k, seconds, 's', Part(ms, "ms"), c3);
        ScanLast(out, l, ms, c4);
      }
    }
  }

  lemma ScanLast(str: string, p: nat, n: nat, c: Clock)
    requires p <= |str| && str[p..] == Part(n, "ms") && c.k == 0 && n < 100000000 && !c.msecs && c.ms == 0
    requires n > 0 || c.day || c.hour || c.min || c.secs
    ensures Scan(str, p, c) == Ok(Total(c.(ms := n)))
  {
    hide Scan;
    if n > 0 {
      ScanMs(str, p, n, c);
    } else {
      ScanNext(str, p, c);
      assert c == c.(ms := n);
    }
  }

  lemma TooManyDays(out: string, days: nat, rest: string)
    requires days >= 100000000 && out == Part(days, "d") + rest
    ensures Scan(out, 0, Fresh()) == TooLarge
  {
    hide Scan, Decimal;
    assert out[0..] == out == Decimal(days) + ("d" + rest);
    ScanPart(out, 0, days, "d" + rest, Fresh());
  }

  lemma ZeroSeconds()
    ensures Scan("0s", 0, Fresh()) == Ok(0)
  {
    hide *;
    var out, c := "0s", Fresh();
    ZeroText(out);
    ScanPart(out, 0, 0, "s", c);
    ScanNext(out, 1, c.(k := 1));
    ZeroStep(out);
    ScanNext(out, 2, c.(s := 0, secs := true, k := 0));
  }

  lemma ZeroText(out: string)
    requires out == "0s"
    ensures Decimal(0) == "0" && out[0..] == "0" + "s" && !IsDigit('s') && Fresh().k == 0 && |out| == 2
  {
  }

  lemma ZeroStep(out: string)
    requires out == "0s" && Str2Int(out[0..]) == 0
    ensures Step(out, 1, Fresh().(k := 1)) == Next(2, Fresh().(s := 0, secs := true, k := 0))
    ensures Total(Fresh().(s := 0, secs := true, k := 0)) == 0
  {
    hide Str2Int;
  }
}
