/**
 * Which days an employee works: the weekday abbreviation of a date (as the
 * C-locale `%a` format gives it) and the comma-separated token list stored in
 * the employee's `working_days` column, split as Python's `str.split(",")` does.
 */
module Calendar {

  const DayNames: seq<string> := ["Mon", "Tue", "Wed", "Thu", "Fri", "Sat", "Sun"]

  /** Day of the week of a day ordinal, 0 = Monday .. 6 = Sunday. */
  function Weekday(date: int): (w: nat)
    ensures w < 7
  {
    (date + 6) % 7
  }

  function WeekdayAbbrev(date: int): (name: string)
    ensures name in DayNames
  {
    DayNames[Weekday(date)]
  }

  /** Python's `s.split(sep)` for a one-character separator: never empty, keeps empty fields. */
  function Split(s: string, sep: char): (parts: seq<string>)
    ensures |parts| >= 1
    decreases |s|
  {
    if |s| == 0 then [""]
    else if s[0] == sep then [""] + Split(s[1..], sep)
    else
      var rest := Split(s[1..], sep);
      [[s[0]] + rest[0]] + rest[1..]
  }

  /** `sep.join(parts)`. */
  function Join(parts: seq<string>, sep: char): string
  {
    if |parts| == 0 then ""
    else if |parts| == 1 then parts[0]
    else parts[0] + [sep] + Join(parts[1..], sep)
  }

  /** The day check of the availability query: an exact token of the list. */
  predicate WorksOn(workingDays: string, date: int)
  {
    WeekdayAbbrev(date) in Split(workingDays, ',')
  }

  /** No token produced by Split contains the separator. */
  lemma {:induction false} SplitTokensHaveNoSeparator(s: string, sep: char)
    ensures forall i :: 0 <= i < |Split(s, sep)| ==> sep !in Split(s, sep)[i]
    decreases |s|
  {
    if |s| > 0 {
      SplitTokensHaveNoSeparator(s[1..], sep);
    }
  }

  /** Joining the tokens back gives the original text. */
  lemma {:induction false} JoinSplit(s: string, sep: char)
    ensures Join(Split(s, sep), sep) == s
    decreases |s|
  {
    if |s| > 0 {
      var rest := Split(s[1..], sep);
      JoinSplit(s[1..], sep);
      if s[0] == sep {
        assert Split(s, sep) == [""] + rest;
        assert Join([""] + rest, sep) == [sep] + Join(rest, sep);
      } else {
        var parts := Split(s, sep);
        assert parts == [[s[0]] + rest[0]] + rest[1..];
        if |rest| == 1 {
          assert Join(parts, sep) == [s[0]] + rest[0];
        } else {
          assert Join(rest, sep) == rest[0] + [sep] + Join(rest[1..], sep);
          assert parts[1..] == rest[1..];
          assert Join(parts, sep) == [s[0]] + rest[0] + [sep] + Join(rest[1..], sep);
        }
      }
    }
  }

  /** Splitting a join of separator-free tokens gives those tokens back. */
  lemma {:induction false} SplitJoin(parts: seq<string>, sep: char)
    requires |parts| >= 1
    requires forall i :: 0 <= i < |parts| ==> sep !in parts[i]
    ensures Split(Join(parts, sep), sep) == parts
    decreases |parts|, |parts[0]|
  {
    if |parts[0]| > 0 {
      var head := parts[0];
      var tail := [head[1..]] + parts[1..];
      assert Join(parts, sep) == [head[0]] + Join(tail, sep) by {
        if |parts| > 1 {
          assert Join(tail, sep) == head[1..] + [sep] + Join(parts[1..], sep) by {
            assert tail[1..] == parts[1..];
          }
        }
      }
      assert forall i :: 0 <= i < |tail| ==> sep !in tail[i] by {
        forall i | 0 <= i < |tail| ensures sep !in tail[i] {
          if i == 0 { assert forall c :: c in head[1..] ==> c in head; } else { assert tail[i] == parts[i]; }
        }
      }
      SplitJoin(tail, sep);
      var s := Join(parts, sep);
      assert s[1..] == Join(tail, sep);
      assert head[0] in head;
      assert [head[0]] + head[1..] == head;
    } else if |parts| > 1 {
      var s := Join(parts, sep);
      assert s == [sep] + Join(parts[1..], sep);
      assert s[1..] == Join(parts[1..], sep);
      SplitJoin(parts[1..], sep);
      assert [""] + parts[1..] == parts;
    }
  }

  /** Ordinal 1 is a Monday, each next day is the next weekday, and names repeat every seven days. */
  lemma WeekdaySuccession(date: int)
    ensures Weekday(1) == 0
    ensures Weekday(date + 1) == (Weekday(date) + 1) % 7
    ensures WeekdayAbbrev(date + 7) == WeekdayAbbrev(date)
  {
  }

  /** 1 January 2024 (ordinal 738886) is a Monday. */
  lemma AnchorMonday()
    ensures WeekdayAbbrev(738886) == "Mon"
  {
  }

  /** An employee working "Tue,Wed" does not work on a Monday, and does on a Tuesday. */
  lemma NonWorkingDayExample()
    ensures !WorksOn("Tue,Wed", 738886)
    ensures WorksOn("Tue,Wed", 738887)
  {
    assert Join(["Tue", "Wed"], ',') == "Tue,Wed";
    SplitJoin(["Tue", "Wed"], ',');
    assert Split("Tue,Wed", ',') == ["Tue", "Wed"];
    assert WeekdayAbbrev(738886) == "Mon";
    assert WeekdayAbbrev(738887) == "Tue";
  }

  /**
   * For a working-day list written as comma-joined tokens, the day check holds
   * exactly when the date's abbreviation is one of the tokens, character for
   * character: " Tue" or "tue" does not name Tuesday.
   */
  lemma WorksOnExactToken(tokens: seq<string>, date: int)
    requires |tokens| >= 1
    requires forall i :: 0 <= i < |tokens| ==> ',' !in tokens[i]
    ensures WorksOn(Join(tokens, ','), date) <==> WeekdayAbbrev(date) in tokens
  {
    SplitJoin(tokens, ',');
  }
}
