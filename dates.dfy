/** The date helpers of graphics/gen_frames.py: `make_date`, `daterange` and
    `date_diff`. The frame scheduler works on day ordinals (one integer per
    calendar day), so `daterange` and `date_diff` are stated on ordinals;
    `make_date` is the parse of a `YYYY-MM-DD` string into its three fields,
    with the range checks of `datetime.date`. */
module Dates {
  import opened Wrappers
  import opened PyStr

  datatype Date = Date(year: int, month: int, day: int)

  const MinYear := 1
  const MaxYear := 9999

  predicate IsLeap(y: int) {
    y % 4 == 0 && (y % 100 != 0 || y % 400 == 0)
  }

  function DaysInMonth(y: int, m: int): (n: int)
    requires 1 <= m <= 12
    ensures 28 <= n <= 31
  {
    if m == 2 then (if IsLeap(y) then 29 else 28)
    else if m == 4 || m == 6 || m == 9 || m == 11 then 30
    else 31
  }

  /** The fields `datetime.date` accepts. */
  predicate ValidDate(d: Date) {
    && MinYear <= d.year <= MaxYear
    && 1 <= d.month <= 12
    && 1 <= d.day <= DaysInMonth(d.year, d.month)
  }

  /** The values a C `int` holds: `datetime.date` converts each field to one
      before it checks any range. */
  predicate IsCInt(n: int) {
    -0x8000_0000 <= n < 0x8000_0000
  }

  /** `datetime.date(y, m, d)`: a date; `OverflowError` when a field does not
      fit a C `int`, otherwise `ValueError` for a field out of range. */
  function NewDate(y: int, m: int, d: int): (r: Result<Date>)
    ensures r.Ok? <==> ValidDate(Date(y, m, d))
    ensures r.Ok? ==> r.value == Date(y, m, d)
    ensures r.Err? ==> r.error == if IsCInt(y) && IsCInt(m) && IsCInt(d) then ValueError else OverflowError
  {
    if !IsCInt(y) || !IsCInt(m) || !IsCInt(d) then Err(OverflowError)
    else if !(MinYear <= y <= MaxYear) || !(1 <= m <= 12) || !(1 <= d <= DaysInMonth(y, m)) then Err(ValueError)
    else Ok(Date(y, m, d))
  }

  /** `make_date`: split on `-`, parse the first three fields as integers in
      order (an `IndexError` for a missing field is raised only when that field
      is reached), and build the date. Fields after the third are ignored. */
  function MakeDate(text: string): (r: Result<Date>)
    ensures r.Ok? ==> ValidDate(r.value)
    ensures r.Err? ==> r.error == IndexError || r.error == ValueError || r.error == OverflowError
  {
    var parts := Split(text, '-');
    var y :- ParseInt(parts[0]);
    var m :- if |parts| > 1 then ParseInt(parts[1]) else Err(IndexError);
    var d :- if |parts| > 2 then ParseInt(parts[2]) else Err(IndexError);
    NewDate(y, m, d)
  }

  /** `str(date)`: the ISO form `YYYY-MM-DD` with zero padding. */
  function IsoFormat(d: Date): (s: string)
    requires ValidDate(d)
    ensures |s| >= 10
    ensures forall k :: 0 <= k < |s| ==> IsDigit(s[k]) || s[k] == '-'
  {
    var y, m, n := ZeroPad(d.year, 4), ZeroPad(d.month, 2), ZeroPad(d.day, 2);
    assert forall k :: 0 <= k < |y| ==> IsDigit(y[k]);
    assert forall k :: 0 <= k < |m| ==> IsDigit(m[k]);
    assert forall k :: 0 <= k < |n| ==> IsDigit(n[k]);
    y + "-" + m + "-" + n
  }

  lemma SplitCons(a: string, b: string, sep: char)
    requires sep !in a
    ensures Split(a + [sep] + b, sep) == [a] + Split(b, sep)
  {
    var s := a + [sep] + b;
    var i := IndexOf(s, sep);
    assert s[|a|] == sep;
    assert s[..|a|] == a;
    assert sep in s[..|a| + 1] by { assert s[..|a| + 1][|a|] == sep; }
    assert forall k :: 0 <= k < |a| ==> s[k] == a[k];
    assert i == |a|;
    assert s[i + 1..] == b;
  }

  lemma NoDashInDigits(s: string)
    requires AllDigits(s)
    ensures '-' !in s
  {
    forall k | 0 <= k < |s| ensures s[k] != '-' {
      assert IsDigit(s[k]);
    }
  }

  lemma SplitThree(a: string, b: string, c: string)
    requires '-' !in a && '-' !in b && '-' !in c
    ensures Split(a + "-" + b + "-" + c, '-') == [a, b, c]
  {
    assert IndexOf(c, '-') == -1;
    SplitCons(b, c, '-');
    assert a + "-" + b + "-" + c == a + ['-'] + (b + ['-'] + c);
    SplitCons(a, b + ['-'] + c, '-');
  }

  lemma SplitThreeMore(a: string, b: string, c: string, tail: string)
    requires '-' !in a && '-' !in b && '-' !in c
    ensures Split(a + "-" + b + "-" + c + "-" + tail, '-') == [a, b, c] + Split(tail, '-')
  {
    var u := c + ['-'] + tail;
    var v := b + ['-'] + u;
    var w := a + ['-'] + v;
    SplitCons(c, tail, '-');
    SplitCons(b, u, '-');
    SplitCons(a, v, '-');
    ConcatFour(a, b, c, tail);
    ConsThree(a, b, c, Split(tail, '-'));
  }

  lemma ConcatFour(a: string, b: string, c: string, tail: string)
    ensures a + "-" + b + "-" + c + "-" + tail == a + ['-'] + (b + ['-'] + (c + ['-'] + tail))
  {
  }

  lemma ConsThree(a: string, b: string, c: string, rest: seq<string>)
    ensures [a] + ([b] + ([c] + rest)) == [a, b, c] + rest
  {
  }

  /** The three `-`-free fields of the ISO form, followed by whatever comes
      after a further `-`. */
  lemma SplitIso(d: Date, tail: string)
    requires ValidDate(d)
    ensures Split(IsoFormat(d), '-') == [ZeroPad(d.year, 4), ZeroPad(d.month, 2), ZeroPad(d.day, 2)]
    ensures Split(IsoFormat(d) + "-" + tail, '-')
         == [ZeroPad(d.year, 4), ZeroPad(d.month, 2), ZeroPad(d.day, 2)] + Split(tail, '-')
  {
    var y, m, n := ZeroPad(d.year, 4), ZeroPad(d.month, 2), ZeroPad(d.day, 2);
    NoDashInDigits(y);
    NoDashInDigits(m);
    NoDashInDigits(n);
    SplitThree(y, m, n);
    SplitThreeMore(y, m, n, tail);
  }

  /** When the first three fields parse, `make_date` is `datetime.date` of them. */
  lemma MakeDateOfFields(text: string, y: int, m: int, n: int)
    requires |Split(text, '-')| >= 3
    requires ParseInt(Split(text, '-')[0]) == Ok(y)
    requires ParseInt(Split(text, '-')[1]) == Ok(m)
    requires ParseInt(Split(text, '-')[2]) == Ok(n)
    ensures MakeDate(text) == NewDate(y, m, n)
  {
  }

  /** Parsing the ISO form of a valid date gives the date back, whatever
      fields follow it. */
  lemma {:induction false} MakeDateOfIsoFormat(d: Date, tail: string)
    requires ValidDate(d)
    ensures MakeDate(IsoFormat(d)) == Ok(d)
    ensures MakeDate(IsoFormat(d) + "-" + tail) == Ok(d)
  {
    ParseIntOfZeroPad(d.year, 4);
    ParseIntOfZeroPad(d.month, 2);
    ParseIntOfZeroPad(d.day, 2);
    SplitIso(d, tail);
    MakeDateOfFields(IsoFormat(d), d.year, d.month, d.day);
    MakeDateOfFields(IsoFormat(d) + "-" + tail, d.year, d.month, d.day);
  }

  /** Too few fields: the missing one raises `IndexError`, unless a field
      read before it already failed to parse. */
  lemma MakeDateMissingField(a: string, b: string)
    requires '-' !in a && '-' !in b
    requires ParseInt(a).Ok? && ParseInt(b).Ok?
    ensures MakeDate(a) == Err(IndexError)
    ensures MakeDate(a + "-" + b) == Err(IndexError)
  {
    SplitCons(a, b, '-');
    assert IndexOf(b, '-') == -1;
    assert IndexOf(a, '-') == -1;
  }

  /** `daterange(start, end)`: the days `start, start + 1, ..., end - 1`, and
      nothing when `end <= start`. */
  function DateRange(start: int, end: int): (days: seq<int>)
    decreases end - start
    ensures |days| == if end > start then end - start else 0
    ensures forall n :: 0 <= n < |days| ==> days[n] == start + n
  {
    if end <= start then [] else [start] + DateRange(start + 1, end)
  }

  /** `date_diff(start, end)`: the number of days `daterange` yields. */
  function DateDiff(start: int, end: int): (n: nat)
    ensures n == if end > start then end - start else 0
  {
    |DateRange(start, end)|
  }
}
