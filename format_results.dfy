/**
  The FormatResults Lambda: renders the current JST date as `YYYY年MM月DD日`
  and projects the fields the report needs.

  `getFullYear`, `getMonth` and `getDate` depend on the runtime's time zone;
  their values are the parameter `calendar`.
*/
module FormatResults {
  import opened Wrappers
  import opened Json
  import opened Decimal
  import CalculateTimeDifference

  const Message := "結果を整形しました"

  /** What `getFullYear()`, `getMonth()` (0-based) and `getDate()` return. */
  datatype CalendarFields = CalendarFields(fullYear: int, month0: int, date: int)

  /** `month.toString().padStart(2, '0')`: at least two characters, reading back as `v`. */
  function TwoDigits(v: int): (r: string)
    ensures |r| >= 2
    ensures ParseInt(r) == Some(v)
  {
    PaddedRoundTrip(v);
    PadStart(IntToString(v), 2, '0')
  }

  /** The year unpadded, then `年`, the two-digit month, `月`, the two-digit day and `日`. */
  function FormatDate(year: int, month: int, day: int): string {
    IntToString(year) + "年" + TwoDigits(month) + "月" + TwoDigits(day) + "日"
  }

  /** The index of the first `c` in `s`, if any. */
  function FindChar(s: string, c: char): (r: Option<nat>)
    ensures r.Some? ==> r.value < |s| && s[r.value] == c
    ensures r.Some? ==> forall j :: 0 <= j < r.value ==> s[j] != c
    ensures r.None? ==> forall j :: 0 <= j < |s| ==> s[j] != c
  {
    if s == [] then None
    else if s[0] == c then Some(0)
    else match FindChar(s[1..], c)
      case None => None
      case Some(i) => Some(i + 1)
  }

  /** Reads a `YYYY年MM月DD日` string back into its three numbers. */
  function ParseDate(s: string): Option<(int, int, int)> {
    match FindChar(s, '年')
    case None => None
    case Some(i) =>
      var rest := s[i + 1..];
      match FindChar(rest, '月')
      case None => None
      case Some(j) =>
        var tail := rest[j + 1..];
        if |tail| == 0 || tail[|tail| - 1] != '日' then None
        else
          match (ParseInt(s[..i]), ParseInt(rest[..j]), ParseInt(tail[..|tail| - 1]))
          case (Some(y), Some(m), Some(d)) => Some((y, m, d))
          case _ => None
  }

  /** The rendering of an integer holds only digits and a minus sign. */
  lemma NoMarkerInNumber(v: int, c: char)
    requires c != '-' && !IsDigit(c)
    ensures forall j :: 0 <= j < |IntToString(v)| ==> IntToString(v)[j] != c
  {
    var s := IntToString(v);
    if v < 0 {
      var digits := NatToString(-v);
      assert s == "-" + digits;
      forall j | 1 <= j < |s|
        ensures s[j] != c
      {
        assert s[j] == digits[j - 1];
      }
    }
  }

  lemma NoMarkerInTwoDigits(v: int, c: char)
    requires c != '-' && !IsDigit(c)
    ensures forall j :: 0 <= j < |TwoDigits(v)| ==> TwoDigits(v)[j] != c
  {
    var s := IntToString(v);
    var r := TwoDigits(v);
    var pad := |r| - |s|;
    NoMarkerInNumber(v, c);
    forall j | 0 <= j < |r|
      ensures r[j] != c
    {
      if pad <= j {
        assert r[j] == r[pad..][j - pad];
      }
    }
  }

  /** The character searched for sits right after a prefix that does not contain it. */
  lemma {:induction false} FindCharAfter(prefix: string, c: char, suffix: string)
    requires forall j :: 0 <= j < |prefix| ==> prefix[j] != c
    ensures FindChar(prefix + [c] + suffix, c) == Some(|prefix|)
  {
    if prefix != [] {
      assert (prefix + [c] + suffix)[1..] == prefix[1..] + [c] + suffix;
      FindCharAfter(prefix[1..], c, suffix);
    }
  }

  /** A string laid out as `y年m月d日` splits at its markers into `y`, `m` and `d`. */
  lemma ParseDateSplits(y: string, m: string, d: string)
    requires forall j :: 0 <= j < |y| ==> y[j] != '年'
    requires forall j :: 0 <= j < |m| ==> m[j] != '月'
    ensures ParseInt(y).Some? && ParseInt(m).Some? && ParseInt(d).Some? ==>
              ParseDate(y + "年" + m + "月" + d + "日") ==
                Some((ParseInt(y).value, ParseInt(m).value, ParseInt(d).value))
  {
    var s := y + "年" + m + "月" + d + "日";
    var rest := m + "月" + d + "日";
    var tail := d + "日";
    assert FindChar(s, '年') == Some(|y|) && s[..|y|] == y && s[|y| + 1..] == rest by {
      assert s == y + ['年'] + rest;
      SplitAtMarker(y, '年', rest);
    }
    assert FindChar(rest, '月') == Some(|m|) && rest[..|m|] == m && rest[|m| + 1..] == tail by {
      assert rest == m + ['月'] + tail;
      SplitAtMarker(m, '月', tail);
    }
    ReadParts(s, y, m, d);
  }

  /** Once both markers are found where `y` and `m` end, the three parts read back as numbers. */
  lemma ReadParts(s: string, y: string, m: string, d: string)
    requires FindChar(s, '年') == Some(|y|) && s[..|y|] == y
    requires FindChar(s[|y| + 1..], '月') == Some(|m|) && s[|y| + 1..][..|m|] == m
    requires s[|y| + 1..][|m| + 1..] == d + "日"
    ensures ParseInt(y).Some? && ParseInt(m).Some? && ParseInt(d).Some? ==>
              ParseDate(s) == Some((ParseInt(y).value, ParseInt(m).value, ParseInt(d).value))
  {
    var rest := s[|y| + 1..];
    var tail := rest[|m| + 1..];
    assert tail == d + "日";
    assert |tail| > 0 && tail[|tail| - 1] == '日';
    assert tail[..|tail| - 1] == d;
  }

  /** The first marker of `prefix + [c] + suffix` is found right after `prefix`, and cutting there gives both parts back. */
  lemma SplitAtMarker(prefix: string, c: char, suffix: string)
    requires forall j :: 0 <= j < |prefix| ==> prefix[j] != c
    ensures FindChar(prefix + [c] + suffix, c) == Some(|prefix|)
    ensures (prefix + [c] + suffix)[..|prefix|] == prefix
    ensures (prefix + [c] + suffix)[|prefix| + 1..] == suffix
  {
    FindCharAfter(prefix, c, suffix);
  }

  /** The formatted date reads back as the year, month and day it was made from. */
  lemma FormatDateRoundTrip(year: int, month: int, day: int)
    ensures ParseDate(FormatDate(year, month, day)) == Some((year, month, day))
  {
    NoMarkerInNumber(year, '年');
    NoMarkerInTwoDigits(month, '月');
    IntToStringRoundTrip(year);
    PaddedRoundTrip(month);
    PaddedRoundTrip(day);
    ParseDateSplits(IntToString(year), TwoDigits(month), TwoDigits(day));
  }

  /**
    For the month and day numbers a date can have, each takes exactly two
    characters, with a leading '0' only below 10.
  */
  lemma MonthAndDayWidth(month0: int, date: int)
    requires 0 <= month0 <= 11 && 1 <= date <= 31
    ensures 1 <= month0 + 1 <= 12
    ensures |TwoDigits(month0 + 1)| == 2 && (TwoDigits(month0 + 1)[0] == '0' <==> month0 + 1 < 10)
    ensures |TwoDigits(date)| == 2 && (TwoDigits(date)[0] == '0' <==> date < 10)
  {
    TwoDigitPadding(month0 + 1);
    TwoDigitPadding(date);
  }

  /** The year is written as it is, without padding, right before `年`. */
  lemma YearNotPadded(year: int, month: int, day: int)
    ensures FormatDate(year, month, day)[..|IntToString(year)| + 1] == IntToString(year) + "年"
  {
    LeadingPair(IntToString(year), "年", TwoDigits(month), "月", TwoDigits(day), "日");
  }

  lemma LeadingPair(a: string, b: string, c: string, d: string, e: string, f: string)
    ensures (a + b + c + d + e + f)[..|a| + |b|] == a + b
  {
    assert a + b + c + d + e + f == (a + b) + (c + d + e + f);
  }

  /** The `currentDate` block: the event's `jstTime` as it came, and the formatted date. */
  function CurrentDate(event: Record, calendar: CalendarFields): (v: Value)
    ensures v.Obj? && v.fields.Keys <= {"iso", "formatted"}
    ensures Field(v.fields, "iso") == Field(event, "jstTime")
    ensures Field(v.fields, "formatted") ==
              Some(Str(FormatDate(calendar.fullYear, calendar.month0 + 1, calendar.date)))
  {
    var formatted := FormatDate(calendar.fullYear, calendar.month0 + 1, calendar.date);
    Obj(WithOptional(map["formatted" := Str(formatted)], "iso", Field(event, "jstTime")))
  }

  /** The handler's result object; entries whose value is `undefined` are absent. */
  function Report(currentDate: Value, days: Option<Value>, targetDate: Option<Value>): (r: Record)
    ensures r.Keys <= {"currentDate", "daysUntilTarget", "targetDate", "message"}
    ensures Field(r, "currentDate") == Some(currentDate)
    ensures Field(r, "message") == Some(Str(Message))
    ensures Field(r, "daysUntilTarget") == days
    ensures Field(r, "targetDate") == targetDate
  {
    var base := map["currentDate" := currentDate, "message" := Str(Message)];
    var withDays := WithOptional(base, "daysUntilTarget", days);
    assert Field(withDays, "currentDate") == Some(currentDate);
    assert Field(withDays, "message") == Some(Str(Message));
    WithOptional(withDays, "targetDate", targetDate)
  }

  /**
    The handler: reading `days` of a missing or null `timeDifference` throws;
    otherwise the result holds the current date, the day count, the target
    date and the message, and nothing else. A value that is `undefined` in
    JavaScript is an absent key here.
  */
  function Handler(event: Record, calendar: CalendarFields): (r: Result<Record>)
    ensures r.Err? <==> "timeDifference" !in event || event["timeDifference"] == Null
    ensures r.Ok? ==> r.value.Keys <= {"currentDate", "daysUntilTarget", "targetDate", "message"}
    ensures r.Ok? ==> Field(r.value, "currentDate") == Some(CurrentDate(event, calendar))
    ensures r.Ok? ==> Field(r.value, "message") == Some(Str(Message))
    ensures r.Ok? ==> Field(r.value, "daysUntilTarget") == Property(Field(event, "timeDifference"), "days").value
    ensures r.Ok? ==> Field(r.value, "targetDate") == Field(event, "targetDate")
  {
    match Property(Field(event, "timeDifference"), "days")
    case Err(message) => Err(message)
    case Ok(days) => Ok(Report(CurrentDate(event, calendar), days, Field(event, "targetDate")))
  }

  /**
    Chained after CalculateTimeDifference, the handler never throws: it reports
    the whole days of the computed difference and the fixed target date.
  */
  lemma ReportsCalculatedDays(event: Record, currentMs: int, calendar: CalendarFields)
    ensures Handler(CalculateTimeDifference.Handler(event, currentMs), calendar).Ok?
    ensures Field(Handler(CalculateTimeDifference.Handler(event, currentMs), calendar).value, "daysUntilTarget") ==
              Some(Num(CalculateTimeDifference.Decompose(CalculateTimeDifference.TargetMs - currentMs).days))
    ensures Field(Handler(CalculateTimeDifference.Handler(event, currentMs), calendar).value, "targetDate") ==
              Some(Str(CalculateTimeDifference.TargetIso))
  {
    var calculated := CalculateTimeDifference.Handler(event, currentMs);
    var d := CalculateTimeDifference.Decompose(CalculateTimeDifference.TargetMs - currentMs);
    assert calculated["timeDifference"] == CalculateTimeDifference.TimeDifferenceValue(d);
    assert Property(Field(calculated, "timeDifference"), "days") == Ok(Some(Num(d.days)));
  }
}
