/** Reading a stop-time's arrival "H:M:S" as seconds after midnight. Hours
    may be 24 or more (trips running past midnight) and nothing wraps;
    minutes and seconds are not range-checked either. */
module ArrivalTime {
  import opened Gtfs

  /** Splits `s` at every `sep`, as Python's `str.split(sep)` does: n
      separators give n + 1 fields, possibly empty ones. */
  function Split(s: string, sep: char): (fields: seq<string>)
    ensures |fields| == Occurrences(s, sep) + 1
    ensures forall f :: f in fields ==> sep !in f
    decreases |s|
  {
    if s == [] then [""]
    else
      var rest := Split(s[1..], sep);
      assert s == [s[0]] + s[1..];
      if s[0] == sep then [""] + rest
      else
        assert forall f :: f in rest[1..] ==> f in rest;
        [[s[0]] + rest[0]] + rest[1..]
  }

  /** The number of times `c` occurs in `s`. */
  function Occurrences(s: string, c: char): nat
  {
    if s == [] then 0 else (if s[0] == c then 1 else 0) + Occurrences(s[1..], c)
  }

  /** The fields written one after the other with `sep` between them. */
  function Join(fields: seq<string>, sep: char): string
    requires |fields| >= 1
    decreases |fields|
  {
    if |fields| == 1 then fields[0] else fields[0] + [sep] + Join(fields[1..], sep)
  }

  /** Joining the fields of a split with the separator gives the text back. */
  lemma {:induction false} JoinSplit(s: string, sep: char)
    ensures Join(Split(s, sep), sep) == s
    decreases |s|
  {
    if s != [] {
      var rest := Split(s[1..], sep);
      JoinSplit(s[1..], sep);
      assert s == [s[0]] + s[1..];
      if s[0] != sep {
        var fields := Split(s, sep);
        assert fields[1..] == rest[1..];
        if |rest| > 1 {
          assert Join(rest, sep) == rest[0] + [sep] + Join(rest[1..], sep);
        }
      }
    }
  }

  /** Splitting a separator-free field followed by more text puts the field
      at the front of the first piece. */
  lemma {:induction false} SplitAfterField(f: string, t: string, sep: char)
    requires sep !in f
    ensures Split(f + t, sep) == [f + Split(t, sep)[0]] + Split(t, sep)[1..]
    decreases |f|
  {
    if f == [] {
      assert f + t == t;
      assert f + Split(t, sep)[0] == Split(t, sep)[0];
      assert Split(t, sep) == [Split(t, sep)[0]] + Split(t, sep)[1..];
    } else {
      assert (f + t)[0] == f[0] && (f + t)[1..] == f[1..] + t;
      SplitAfterField(f[1..], t, sep);
      assert [f[0]] + (f[1..] + Split(t, sep)[0]) == f + Split(t, sep)[0];
    }
  }

  /** Joining fields that contain no separator and splitting the result
      gives the fields back. */
  lemma {:induction false} SplitJoin(fields: seq<string>, sep: char)
    requires |fields| >= 1
    requires forall f :: f in fields ==> sep !in f
    ensures Split(Join(fields, sep), sep) == fields
    decreases |fields|
  {
    var f := fields[0];
    if |fields| == 1 {
      SplitAfterField(f, "", sep);
      assert f + "" == f;
    } else {
      var rest := fields[1..];
      assert forall g :: g in rest ==> g in fields;
      SplitJoin(rest, sep);
      var tail := [sep] + Join(rest, sep);
      assert Join(fields, sep) == f + tail;
      SplitAfterField(f, tail, sep);
      assert tail[0] == sep && tail[1..] == Join(rest, sep);
      assert Split(tail, sep) == [""] + rest;
      assert f + "" == f;
    }
  }

  predicate IsDigit(c: char) { '0' <= c <= '9' }

  /** A non-empty run of decimal digits. */
  predicate IsNumeral(f: string)
  {
    |f| > 0 && forall i :: 0 <= i < |f| ==> IsDigit(f[i])
  }

  /** The value of a decimal digit; other characters never reach it. */
  function DigitValue(c: char): nat
  {
    if IsDigit(c) then c as int - '0' as int else 0
  }

  /** The value of a string of decimal digits, leading zeros allowed. */
  function NumeralValue(f: string): nat
    decreases |f|
  {
    if f == [] then 0 else NumeralValue(f[..|f| - 1]) * 10 + DigitValue(f[|f| - 1])
  }

  /** Seconds after midnight of the arrival text `text`: exactly three
      colon-separated fields of digits H, M and S give H*3600 + M*60 + S;
      anything else is an error. */
  function TimeToSeconds(text: string): (r: Result<nat>)
    ensures r.Err? ==> r.error == MalformedTime(text)
    ensures Occurrences(text, ':') != 2 ==> r.Err?
  {
    var fields := Split(text, ':');
    if ClockFields(fields) then Ok(FieldsSeconds(fields)) else Err(MalformedTime(text))
  }

  /** Exactly three fields, each a numeral: hours, minutes, seconds. */
  predicate ClockFields(fields: seq<string>)
  {
    |fields| == 3 && IsNumeral(fields[0]) && IsNumeral(fields[1]) && IsNumeral(fields[2])
  }

  function FieldsSeconds(fields: seq<string>): nat
    requires ClockFields(fields)
  {
    NumeralValue(fields[0]) * 3600 + NumeralValue(fields[1]) * 60 + NumeralValue(fields[2])
  }

  /** Any three digit fields joined by colons parse, to the weighted sum of
      their values: no range check, no wrap-around past 24 hours. */
  lemma ParseTimeFields(h: string, m: string, s: string)
    requires IsNumeral(h) && IsNumeral(m) && IsNumeral(s)
    ensures TimeToSeconds(h + ":" + m + ":" + s)
         == Ok(NumeralValue(h) * 3600 + NumeralValue(m) * 60 + NumeralValue(s))
  {
    NumeralHasNoColon(h);
    NumeralHasNoColon(m);
    NumeralHasNoColon(s);
    var fields := [h, m, s];
    var text := h + ":" + m + ":" + s;
    JoinThree(h, m, s, ':');
    assert Join(fields, ':') == text;
    SplitJoin(fields, ':');
    ThreeClockFields(h, m, s);
    TimeOfSplit(text, fields);
  }

  /** A text whose split is a list of clock fields reads as their seconds. */
  lemma TimeOfSplit(text: string, fields: seq<string>)
    requires Split(text, ':') == fields && ClockFields(fields)
    ensures TimeToSeconds(text) == Ok(FieldsSeconds(fields))
  {
  }

  /** Three numerals are clock fields worth their weighted sum. */
  lemma ThreeClockFields(h: string, m: string, s: string)
    requires IsNumeral(h) && IsNumeral(m) && IsNumeral(s)
    ensures ClockFields([h, m, s])
    ensures FieldsSeconds([h, m, s]) == NumeralValue(h) * 3600 + NumeralValue(m) * 60 + NumeralValue(s)
  {
  }

  lemma NumeralHasNoColon(f: string)
    requires IsNumeral(f)
    ensures ':' !in f
  {
  }

  lemma JoinThree(a: string, b: string, c: string, sep: char)
    ensures Join([a, b, c], sep) == a + [sep] + b + [sep] + c
  {
    var fields := [a, b, c];
    assert fields[1..] == [b, c] && [b, c][1..] == [c];
    assert Join([b, c], sep) == b + [sep] + c;
    assert Join(fields, sep) == a + [sep] + (b + [sep] + c);
  }

  /** Every text that parses is three digit fields joined by colons, and
      its value is the weighted sum of theirs. */
  lemma ParsedTimeHasThreeFields(text: string)
    requires TimeToSeconds(text).Ok?
    ensures exists h, m, s ::
      && IsNumeral(h) && IsNumeral(m) && IsNumeral(s)
      && text == h + ":" + m + ":" + s
      && TimeToSeconds(text).value == NumeralValue(h) * 3600 + NumeralValue(m) * 60 + NumeralValue(s)
  {
    var fields := Split(text, ':');
    var h, m, s := fields[0], fields[1], fields[2];
    assert fields == [h, m, s];
    JoinSplit(text, ':');
    JoinThree(h, m, s, ':');
    assert text == h + ":" + m + ":" + s;
  }

  /** The decimal numeral of `n`, without leading zeros. */
  function Decimal(n: nat): (f: string)
    ensures IsNumeral(f)
    decreases n
  {
    var digit := ['0' + (n % 10) as char];
    if n < 10 then digit else Decimal(n / 10) + digit
  }

  /** The numeral of `n`, padded with a zero to two digits, as "07". */
  function TwoDigits(n: nat): (f: string)
    ensures IsNumeral(f) && |f| >= 2
  {
    var d := Decimal(n);
    if |d| < 2 then "0" + d else d
  }

  /** Reading back the numeral of a number gives the number. */
  lemma {:induction false} DecimalValue(n: nat)
    ensures NumeralValue(Decimal(n)) == n
    decreases n
  {
    var f := Decimal(n);
    if n >= 10 {
      DecimalValue(n / 10);
      assert f[..|f| - 1] == Decimal(n / 10);
    }
  }

  /** A leading zero does not change a numeral's value. */
  lemma {:induction false} LeadingZero(f: string)
    ensures NumeralValue("0" + f) == NumeralValue(f)
    decreases |f|
  {
    if f != [] {
      var g := "0" + f;
      assert g[..|g| - 1] == "0" + f[..|f| - 1];
      LeadingZero(f[..|f| - 1]);
    }
  }

  /** The "HH:MM:SS" text of a time of day, hours not wrapped at 24. */
  function TimeText(h: nat, m: nat, s: nat): string
  {
    TwoDigits(h) + ":" + TwoDigits(m) + ":" + TwoDigits(s)
  }

  lemma TwoDigitsValue(n: nat)
    ensures NumeralValue(TwoDigits(n)) == n
  {
    DecimalValue(n);
    if |Decimal(n)| < 2 {
      LeadingZero(Decimal(n));
    }
  }

  /** Reading a written time gives back its seconds, for every hour count:
      "25:10:00" is 90600, one day and 600 seconds, not 600. */
  lemma TimeTextRoundTrip(h: nat, m: nat, s: nat)
    ensures TimeToSeconds(TimeText(h, m, s)) == Ok(h * 3600 + m * 60 + s)
  {
    TwoDigitsValue(h);
    TwoDigitsValue(m);
    TwoDigitsValue(s);
    ParseTimeFields(TwoDigits(h), TwoDigits(m), TwoDigits(s));
  }
}
