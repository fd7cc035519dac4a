/** The texts that time_parse accepts, the value of each, and the error for every other text. */
module TimeGrammar {
  import opened TimeText

  datatype Unit = Day | Hour | Minute | Second | Milli {
    function Weight(): nat {
      match this
      case Day => 24 * 60 * 60 * 1000
      case Hour => 60 * 60 * 1000
      case Minute => 60 * 1000
      case Second => 1000
      case Milli => 1
    }

    function Width(): nat {
      if Milli? then 2 else 1
    }
  }

  /** A unit begins at position i; "ms" means milliseconds only at the end of the text. */
  predicate IsUnit(str: string, i: nat, u: Unit) {
    && i < |str|
    && match u
       case Day => str[i] == 'd'
       case Hour => str[i] == 'h'
       case Minute => str[i] == 'm' && str[i..] != "ms"
       case Second => str[i] == 's'
       case Milli => str[i..] == "ms"
  }

  /** At most eight digits, or none. */
  ghost predicate IsNumber(s: string) {
    AllDigits(s) && |s| <= 8
  }

  datatype Field = Field(digits: string, unit: Unit)

  ghost predicate Used(fields: seq<Field>, u: Unit) {
    exists f :: f in fields && f.unit == u
  }

  /** The text up to position i consists of these fields: numbers and units, no unit twice. */
  ghost predicate Reads(str: string, fields: seq<Field>, i: nat)
    decreases |fields|
  {
    && i <= |str|
    && if fields == [] then i == 0 else
         var before, f := fields[..|fields| - 1], fields[|fields| - 1];
         var w := |f.digits| + f.unit.Width();
         && w <= i && Reads(str, before, i - w) && !Used(before, f.unit) && IsNumber(f.digits)
         && str[i - w..i - w + |f.digits|] == f.digits && IsUnit(str, i - f.unit.Width(), f.unit)
  }

  function Sum(fields: seq<Field>): nat
    requires forall f :: f in fields ==> AllDigits(f.digits)
  {
    if fields == [] then 0 else
      var f := fields[|fields| - 1];
      Sum(fields[..|fields| - 1]) + f.unit.Weight() * Number(f.digits)
  }

  /**
   What a text means.  It is a time if it consists of fields and perhaps more digits: the
   sum of the fields, or the digits as seconds if there is no field.  Otherwise the first
   position at which the text cannot be continued so tells the error: a unit that was
   used, a ninth digit, or any other character.
   */
  ghost predicate Means(str: string, r: Result) {
    exists fields, i: nat, j: nat :: Reads(str, fields, i) && Outcome(str, fields, i, j, r)
  }

  ghost predicate Outcome(str: string, fields: seq<Field>, i: nat, j: nat, r: Result) {
    && i <= j <= |str| && IsNumber(str[i..j]) && (forall f :: f in fields ==> AllDigits(f.digits))
    && match r
       case Ok(ms) => j == |str| && ms == if fields == [] then Number(str[i..j]) * 1000 else Sum(fields)
       case Twice => exists u :: IsUnit(str, j, u) && Used(fields, u)
       case Malformed => j < |str| && !IsDigit(str[j]) && forall u :: !IsUnit(str, j, u)
       case TooLarge => j == i + 8 && j < |str| && IsDigit(str[j])
  }

  // ----- the scan reads fields

  predicate Seen(c: Clock, u: Unit) {
    match u
    case Day => c.day
    case Hour => c.hour
    case Minute => c.min
    case Second => c.secs
    case Milli => c.msecs
  }

  function With(c: Clock, u: Unit, n: nat): Clock {
    match u
    case Day => c.(d := n, day := true, k := 0)
    case Hour => c.(h := n, hour := true, k := 0)
    case Minute => c.(m := n, min := true, k := 0)
    case Second => c.(s := n, secs := true, k := 0)
    case Milli => c.(ms := n, msecs := true, k := 0)
  }

  /** The clock after these fields. */
  function ClockOf(fields: seq<Field>): Clock
    requires forall f :: f in fields ==> AllDigits(f.digits)
  {
    if fields == [] then Fresh() else
      var f := fields[|fields| - 1];
      With(ClockOf(fields[..|fields| - 1]), f.unit, Number(f.digits))
  }

  ghost predicate Unset(c: Clock) {
    (!c.day ==> c.d == 0) && (!c.hour ==> c.h == 0) && (!c.min ==> c.m == 0) && (!c.secs ==> c.s == 0)
      && (!c.msecs ==> c.ms == 0)
  }

  lemma WithTotal(c: Clock, u: Unit, n: nat)
    requires Unset(c) && !Seen(c, u)
    ensures Total(With(c, u, n)) == Total(c) + u.Weight() * n
  {
    match u
    case Day => assert With(c, u, n) == c.(d := n, day := true, k := 0) && c.d == 0;
    case Hour => assert With(c, u, n) == c.(h := n, hour := true, k := 0) && c.h == 0;
    case Minute => assert With(c, u, n) == c.(m := n, min := true, k := 0) && c.m == 0;
    case Second => assert With(c, u, n) == c.(s := n, secs := true, k := 0) && c.s == 0;
    case Milli => assert With(c, u, n) == c.(ms := n, msecs := true, k := 0) && c.ms == 0;
  }

  lemma WithUnset(c: Clock, u: Unit, n: nat)
    requires Unset(c)
    ensures Unset(With(c, u, n)) && With(c, u, n).k == 0
  {
  }

  lemma WithSeen(c: Clock, u: Unit, n: nat, v: Unit)
    ensures Seen(With(c, u, n), v) <==> Seen(c, v) || v == u
  {
  }

  lemma UsedSnoc(fields: seq<Field>, u: Unit)
    requires fields != []
    ensures Used(fields, u) <==> Used(fields[..|fields| - 1], u) || fields[|fields| - 1].unit == u
  {
    assert fields == fields[..|fields| - 1] + [fields[|fields| - 1]];
  }

  /** The last field that was read. */
  lemma ReadsLast(str: string, fields: seq<Field>, i: nat)
    requires Reads(str, fields, i) && fields != []
    ensures var before, f := fields[..|fields| - 1], fields[|fields| - 1];
            var p, j := i - f.unit.Width() - |f.digits|, i - f.unit.Width();
            && fields == before + [f] && 0 <= p <= j < |str| && i <= |str|
            && Reads(str, before, p) && !Used(before, f.unit) && IsNumber(f.digits) && str[p..j] == f.digits
            && IsUnit(str, j, f.unit)
            && ((forall g :: g in fields ==> AllDigits(g.digits)) ==>
                  && ClockOf(fields) == With(ClockOf(before), f.unit, Number(f.digits))
                  && Sum(fields) == Sum(before) + f.unit.Weight() * Number(f.digits))
  {
    hide With, IsNumber, Number;
  }

  lemma {:induction false} ReadsDigits(str: string, fields: seq<Field>, i: nat)
    requires Reads(str, fields, i)
    ensures forall f :: f in fields ==> AllDigits(f.digits)
  {
    if fields != [] {
      ReadsLast(str, fields, i);
      var before, f := fields[..|fields| - 1], fields[|fields| - 1];
      assert AllDigits(f.digits) by { assert IsNumber(f.digits); }
      hide *;
      ReadsDigits(str, before, i - |f.digits| - f.unit.Width());
    }
  }

  lemma {:induction false} ReadsFacts(str: string, fields: seq<Field>, i: nat)
    requires Reads(str, fields, i)
    ensures i <= |str| && forall f :: f in fields ==> AllDigits(f.digits)
    ensures var c := ClockOf(fields); c.k == 0 && Unset(c) && Total(c) == Sum(fields) && forall u :: Seen(c, u) <==>
              Used(fields, u)
  {
    ReadsDigits(str, fields, i);
    if fields != [] {
      ReadsLast(str, fields, i);
      hide Total, Seen, Unset, With, Reads, Used, Number, Sum, ClockOf, IsUnit;
      var before, f := fields[..|fields| - 1], fields[|fields| - 1];
      ReadsFacts(str, before, i - |f.digits| - f.unit.Width());
      WithTotal(ClockOf(before), f.unit, Number(f.digits));
      WithUnset(ClockOf(before), f.unit, Number(f.digits));
      forall u ensures Seen(ClockOf(fields), u) <==> Used(fields, u) {
        WithSeen(ClockOf(before), f.unit, Number(f.digits), u);
        UsedSnoc(fields, u);
      }
    } else {
      assert forall u :: !Seen(Fresh(), u);
    }
  }

  /** What a unit does after the digits before it. */
  lemma StepUnit(str: string, j: nat, u: Unit, c: Clock, digits: string)
    requires IsUnit(str, j, u) && c.k == |digits| <= j && AllDigits(digits) && str[j - c.k..j] == digits
    ensures Step(str, j, c) == if Seen(c, u) then Stop(Twice) else Next(j + u.Width(), With(c, u, Number(digits)))
  {
    assert str[j - c.k..] == digits + str[j..];
    assert !IsDigit(str[j..][0]);
    LeadingIs(digits, str[j..]);
    assert (digits + str[j..])[..|digits|] == digits;
    assert Str2Int(str[j - c.k..]) == Number(digits);
    hide Str2Int, Number, Leading;
  }

  lemma StepOther(str: string, j: nat, c: Clock)
    requires j < |str| && c.k <= j && (forall u :: !IsUnit(str, j, u)) && !IsDigit(str[j])
    ensures Step(str, j, c) == Stop(Malformed)
  {
    assert !IsUnit(str, j, Day) && !IsUnit(str, j, Hour) && !IsUnit(str, j, Second) && !IsUnit(str, j, Minute)
           && !IsUnit(str, j, Milli);
  }

  lemma NumberIs(s: string)
    ensures IsNumber(s) ==> AllDigits(s) && |s| <= 8
  {
  }

  /** A field takes the scan from its first digit to the next field. */
  lemma ScanField(str: string, p: nat, j: nat, u: Unit, c: Clock)
    requires p <= j < |str| && IsNumber(str[p..j]) && IsUnit(str, j, u) && c.k == 0 && j + u.Width() <= |str|
    ensures Scan(str, p, c) == if Seen(c, u) then Twice else Scan(str, j + u.Width(), With(c, u, Number(str[p..j])))
  {
    hide *;
    var digits := str[p..j];
    var c' := c.(k := j - p);
    NumberIs(digits);
    KApart(c, u, j - p, Number(digits));
    ScanDigits(str, p, digits, c);
    StepUnit(str, j, u, c', digits);
    ScanNext(str, j, c');
  }

  lemma KApart(c: Clock, u: Unit, k: nat, n: nat)
    ensures Seen(c.(k := k), u) == Seen(c, u) && With(c.(k := k), u, n) == With(c, u, n)
            && Total(c.(k := k)) == Total(c)
    ensures With(c, u, n).k == 0
  {
  }

  /** Reading fields takes the scan to the end of them. */
  lemma {:induction false} ScanFields(str: string, fields: seq<Field>, i: nat)
    requires Reads(str, fields, i)
    ensures i <= |str| && forall f :: f in fields ==> AllDigits(f.digits)
    ensures ClockOf(fields).k == 0 && Scan(str, 0, Fresh()) == Scan(str, i, ClockOf(fields))
    decreases |fields|
  {
    hide *;
    ReadsFacts(str, fields, i);
    if fields != [] {
      ReadsLast(str, fields, i);
      var before, f := fields[..|fields| - 1], fields[|fields| - 1];
      var j := i - f.unit.Width();
      var p := j - |f.digits|;
      ScanFields(str, before, p);
      ReadsFacts(str, before, p);
      ScanField(str, p, j, f.unit, ClockOf(before));
    } else {
      NoFields(str, fields, i);
    }
  }

  lemma AnySeen(c: Clock, fields: seq<Field>)
    requires forall u :: Seen(c, u) <==> Used(fields, u)
    ensures c.day || c.hour || c.min || c.secs || c.msecs <==> fields != []
  {
    assert Seen(c, Day) == c.day && Seen(c, Hour) == c.hour && Seen(c, Minute) == c.min && Seen(c, Second) == c.secs
           && Seen(c, Milli) == c.msecs;
    if fields != [] {
      assert fields[0] in fields;
      assert Used(fields, fields[0].unit);
    }
  }

  lemma AllNumber(str: string)
    requires IsNumber(str)
    ensures Str2Int(str) == Number(str)
  {
    assert str + "" == str;
    LeadingIs(str, "");
    assert str[..|str|] == str;
  }

  /** The end of the text after these fields and digits. */
  lemma ScanEnd(str: string, fields: seq<Field>, i: nat)
    requires Reads(str, fields, i) && i <= |str| && IsNumber(str[i..]) && forall f :: f in fields ==>
               AllDigits(f.digits)
    ensures Scan(str, |str|, ClockOf(fields).(k := |str| - i)) ==
            Ok(if fields == [] then Number(str[i..]) * 1000 else Sum(fields))
  {
    hide *;
    var c := ClockOf(fields).(k := |str| - i);
    ReadsFacts(str, fields, i);
    KApart(ClockOf(fields), Day, |str| - i, 0);
    AnySeen(ClockOf(fields), fields);
    if fields == [] {
      NoFields(str, fields, i);
      assert str[i..] == str;
      AllNumber(str);
    }
    ScanNext(str, |str|, c);
  }

  lemma OutcomeParts(str: string, fields: seq<Field>, i: nat, j: nat, r: Result)
    requires Outcome(str, fields, i, j, r)
    ensures i <= j <= |str| && IsNumber(str[i..j]) && AllDigits(str[i..j]) && |str[i..j]| == j - i <= 8
    ensures forall f :: f in fields ==> AllDigits(f.digits)
    ensures match r
            case Ok(ms) => j == |str| && str[i..j] == str[i..]
              && ms == if fields == [] then Number(str[i..]) * 1000 else Sum(fields)
            case Twice => exists u :: IsUnit(str, j, u) && Used(fields, u)
            case Malformed => j < |str| && !IsDigit(str[j]) && forall u :: !IsUnit(str, j, u)
            case TooLarge => j == i + 8 && j < |str| && IsDigit(str[j])
  {
    assert j == |str| ==> str[i..j] == str[i..];
  }

  /** Where the scan stops, the outcome is the one described. */
  lemma StopMeans(str: string, fields: seq<Field>, i: nat, j: nat, r: Result)
    requires Reads(str, fields, i) && Outcome(str, fields, i, j, r)
    ensures r == Scan(str, 0, Fresh())
  {
    hide *;
    OutcomeParts(str, fields, i, j, r);
    ScanFields(str, fields, i);
    ReadsFacts(str, fields, i);
    var c := ClockOf(fields);
    match r
    case Ok(_) =>
      ScanDigits(str, i, str[i..j], c);
      ScanEnd(str, fields, i);
    case Twice =>
      var u :| IsUnit(str, j, u) && Used(fields, u);
      UnitFits(str, j, u);
      ScanField(str, i, j, u, c);
    case Malformed =>
      ScanDigits(str, i, str[i..j], c);
      ScanNext(str, j, c.(k := j - i));
      StepOther(str, j, c.(k := j - i));
    case TooLarge =>
      ScanDigits(str, i, str[i..j], c);
      ScanNext(str, j, c.(k := j - i));
      StepDigit(str, j, c.(k := j - i));
  }

  lemma NoFields(str: string, fields: seq<Field>, i: nat)
    requires Reads(str, fields, i) && fields == []
    ensures i == 0 && ClockOf(fields) == Fresh() && Fresh().k == 0
  {
  }

  lemma ReadsSnoc(str: string, fields: seq<Field>, i: nat, j: nat, u: Unit)
    requires Reads(str, fields, i) && i <= j <= |str| && IsNumber(str[i..j]) && IsUnit(str, j, u) && !Used(fields, u)
    ensures j + u.Width() <= |str| && Reads(str, fields + [Field(str[i..j], u)], j + u.Width())
  {
    var f := Field(str[i..j], u);
    var all := fields + [f];
    assert all[..|fields|] == fields && all[|all| - 1] == f;
    hide Used, IsNumber;
  }

  lemma OutcomeIs(str: string, fields: seq<Field>, i: nat, j: nat, r: Result)
    requires Reads(str, fields, i) && i <= j <= |str| && IsNumber(str[i..j])
    requires match r
             case Ok(ms) => j == |str| && (forall f :: f in fields ==> AllDigits(f.digits))
                            && ms == if fields == [] then Number(str[i..]) * 1000 else Sum(fields)
             case Twice => exists u :: IsUnit(str, j, u) && Used(fields, u)
             case Malformed => j < |str| && !IsDigit(str[j]) && forall u :: !IsUnit(str, j, u)
             case TooLarge => j == i + 8 && j < |str| && IsDigit(str[j])
    ensures Means(str, r)
  {
    ReadsDigits(str, fields, i);
    hide Reads, IsUnit, Used, Sum, Number, IsNumber;
    assert j == |str| ==> str[i..j] == str[i..];
    assert Outcome(str, fields, i, j, r);
  }

  lemma NotUnit(str: string, j: nat)
    requires j < |str| && IsDigit(str[j])
    ensures forall u :: !IsUnit(str, j, u)
  {
  }

  lemma OneMore(str: string, i: nat, j: nat)
    requires i <= j < |str| && IsNumber(str[i..j]) && IsDigit(str[j]) && j - i != 8
    ensures IsNumber(str[i..j + 1])
  {
    assert str[i..j + 1] == str[i..j] + [str[j]];
  }

  lemma EmptyNumber(str: string, i: nat)
    requires i <= |str|
    ensures str[i..i] == "" && IsNumber(str[i..i])
  {
  }

  /** From any point that the scan can be at, it ends with an outcome that the text has. */
  lemma {:induction false} ScanMeans(str: string, fields: seq<Field>, i: nat, j: nat)
    requires Reads(str, fields, i) && i <= j <= |str| && IsNumber(str[i..j])
    ensures Means(str, Scan(str, 0, Fresh()))
    decreases |str| - j
  {
    hide Scan, Step, Seen, With, Total, Reads, Used, Str2Int, Number, IsUnit, ClockOf, Means, Outcome, Sum;
    ScanFields(str, fields, i);
    ReadsFacts(str, fields, i);
    var c := ClockOf(fields);
    if j == |str| {
      assert str[i..j] == str[i..];
      ScanDigits(str, i, str[i..j], c);
      ScanEnd(str, fields, i);
      OutcomeIs(str, fields, i, j, Scan(str, 0, Fresh()));
    } else if u :| IsUnit(str, j, u) {
      UnitFits(str, j, u);
      ScanField(str, i, j, u, c);
      if Used(fields, u) {
        OutcomeIs(str, fields, i, j, Twice);
      } else {
        ReadsSnoc(str, fields, i, j, u);
        EmptyNumber(str, j + u.Width());
        ScanMeans(str, fields + [Field(str[i..j], u)], j + u.Width(), j + u.Width());
      }
    } else if !IsDigit(str[j]) {
      OutcomeIs(str, fields, i, j, Malformed);
      ScanDigits(str, i, str[i..j], c);
      ScanNext(str, j, c.(k := j - i));
      StepOther(str, j, c.(k := j - i));
    } else if j - i == 8 {
      OutcomeIs(str, fields, i, j, TooLarge);
      ScanDigits(str, i, str[i..j], c);
      ScanNext(str, j, c.(k := j - i));
      StepDigit(str, j, c.(k := j - i));
    } else {
      OneMore(str, i, j);
      ScanMeans(str, fields, i, j + 1);
    }
  }

  lemma UnitFits(str: string, j: nat, u: Unit)
    requires IsUnit(str, j, u)
    ensures j < |str| && j + u.Width() <= |str| && 0 < u.Width()
  {
  }

  /** Every text has exactly one meaning, and the scan finds it. */
  lemma OneMeaning(str: string, r: Result)
    ensures Means(str, r) <==> r == Scan(str, 0, Fresh())
  {
    hide Scan, Outcome;
    assert Reads(str, [], 0) && str[0..0] == "";
    ScanMeans(str, [], 0, 0);
    if Means(str, r) {
      var fields, i: nat, j: nat :| Reads(str, fields, i) && Outcome(str, fields, i, j, r);
      StopMeans(str, fields, i, j, r);
    }
  }

  /** time_parse: the result is the one thing that the text means. */
  method TimeParse(str: string) returns (r: Result)
    ensures r == Scan(str, 0, Fresh())
    ensures forall r' :: Means(str, r') <==> r' == r
  {
    hide Means, Scan, Str2Int, Total, Number, Leading;
    forall r' ensures Means(str, r') <==> r' == Scan(str, 0, Fresh()) {
      OneMeaning(str, r');
    }
    var c, i := Fresh(), 0;
    while i < |str|
      invariant 0 <= i <= |str| && c.k <= i
      invariant Scan(str, 0, Fresh()) == Scan(str, i, c)
      decreases |str| - i
    {
      ScanNext(str, i, c);
      var value := Str2Int(str[i - c.k..]);
      if str[i] == 'd' {
        if c.day {
          return Twice;
        }
        c := c.(d := value, k := 0, day := true);
      } else if str[i] == 'h' {
        if c.hour {
          return Twice;
        }
        c := c.(h := value, k := 0, hour := true);
      } else if str[i] == 'm' {
        if str[i..] == "ms" {
          if c.msecs {
            return Twice;
          }
          c := c.(ms := value, k := 0, msecs := true);
          i := i + 1;
        } else {
          if c.min {
            return Twice;
          }
          c := c.(m := value, k := 0, min := true);
        }
      } else if str[i] == 's' {
        if c.secs {
          return Twice;
        }
        c := c.(s := value, k := 0, secs := true);
      } else {
        if !IsDigit(str[i]) {
          return Malformed;
        }
        if c.k >= 8 {
          return TooLarge;
        }
        c := c.(k := c.k + 1);
      }
      i := i + 1;
    }
    ScanNext(str, i, c);
    if !(c.day || c.hour || c.min || c.secs || c.msecs) {
      r := Ok(Str2Int(str) * 1000);
    } else {
      r := Ok(Total(c));
    }
  }
}
