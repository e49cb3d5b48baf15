/** The Python built-ins the three scripts lean on: `str.find`, slicing with
    Python's index normalisation, `str.split`, `str.replace`, `int(...)` on a
    decimal string and `str(...)` of an integer. */
module PyStr {
  import opened Wrappers

  // ---------------------------------------------------------------------------
  // Searching
  // ---------------------------------------------------------------------------

  /** `pat` occurs in `s` starting at index `i`. */
  predicate OccursAt<T(==)>(s: seq<T>, pat: seq<T>, i: int) {
    0 <= i && i + |pat| <= |s| && s[i..i + |pat|] == pat
  }

  /** The search behind `Find`, starting at `from`. */
  function FindFrom<T(==)>(s: seq<T>, pat: seq<T>, from: nat): (r: int)
    decreases |s| - from
    ensures r == -1 || (from <= r && OccursAt(s, pat, r))
    ensures forall i :: from <= i && (r == -1 || i < r) ==> !OccursAt(s, pat, i)
  {
    if from + |pat| > |s| then -1
    else if s[from..from + |pat|] == pat then from
    else FindFrom(s, pat, from + 1)
  }

  /** Python's `s.find(pat)`: the lowest index where `pat` occurs, or -1. */
  function Find<T(==)>(s: seq<T>, pat: seq<T>): (r: int)
    ensures r == -1 || OccursAt(s, pat, r)
    ensures forall i :: 0 <= i && (r == -1 || i < r) ==> !OccursAt(s, pat, i)
  {
    FindFrom(s, pat, 0)
  }

  /** The index of the first `x` in `s`, or -1; the one-element case of `Find`. */
  function IndexOf<T(==)>(s: seq<T>, x: T): (r: int)
    ensures r == -1 <==> x !in s
    ensures r != -1 ==> 0 <= r < |s| && s[r] == x && x !in s[..r]
  {
    if s == [] then -1
    else if s[0] == x then 0
    else
      var k := IndexOf(s[1..], x);
      assert s[1..][..if k < 0 then 0 else k] == s[1..if k < 0 then 1 else k + 1];
      if k < 0 then -1 else k + 1
  }

  /** `pat` starts with an element that occurs nowhere else in it, as `&page=`,
      `&per_page=` and `square` do. */
  predicate HeadUnique<T(==)>(pat: seq<T>) {
    |pat| > 0 && forall k :: 0 < k < |pat| ==> pat[k] != pat[0]
  }

  lemma FindSingle<T>(s: seq<T>, x: T)
    ensures Find(s, [x]) == IndexOf(s, x)
  {
    var r := Find(s, [x]);
    forall i | 0 <= i < |s|
      ensures OccursAt(s, [x], i) <==> s[i] == x
    {
      assert s[i..i + 1] == [s[i]];
    }
    var k := IndexOf(s, x);
    if k != -1 {
      assert OccursAt(s, [x], k);
      forall i | 0 <= i < k ensures s[i] != x {
        assert s[..k][i] == s[i];
      }
    }
  }

  /** When `pat` does not occur in `a` and its first element is unique in it,
      its first occurrence in `a + pat + rest` is the one right after `a`. */
  lemma FindAfterFreePrefix<T>(a: seq<T>, pat: seq<T>, rest: seq<T>)
    requires HeadUnique(pat)
    requires Find(a, pat) == -1
    ensures Find(a + pat + rest, pat) == |a|
  {
    var t := a + pat + rest;
    assert t[|a|..|a| + |pat|] == pat;
    forall j | 0 <= j < |a|
      ensures !OccursAt(t, pat, j)
    {
      if j + |pat| <= |a| {
        assert t[j..j + |pat|] == a[j..j + |pat|];
        assert !OccursAt(a, pat, j);
      } else {
        var k := |a| - j;
        assert t[j..j + |pat|][k] == t[|a|] == pat[0] != pat[k];
      }
    }
    var r := Find(t, pat);
    assert OccursAt(t, pat, |a|);
  }

  // ---------------------------------------------------------------------------
  // Slicing
  // ---------------------------------------------------------------------------

  /** Python's normalisation of one slice bound for a sequence of length `n`:
      a negative bound counts from the end, and the result is clamped to 0..n. */
  function SliceBound(n: nat, k: int): (r: nat)
    ensures r <= n
    ensures 0 <= k <= n ==> r == k
    ensures k > n ==> r == n
    ensures -(n as int) <= k < 0 ==> r == n + k
    ensures k < -(n as int) ==> r == 0
  {
    if k < 0 then (if k + n < 0 then 0 else k + n)
    else if k > n then n
    else k
  }

  /** Python's `s[lo:hi]`. */
  function Slice<T>(s: seq<T>, lo: int, hi: int): (r: seq<T>)
    ensures |r| <= |s|
    ensures 0 <= lo <= |s| ==> lo + |r| <= |s| && r == s[lo..lo + |r|]
    ensures |s| <= lo ==> r == []
    ensures 0 <= lo <= hi ==> |r| <= hi - lo
    ensures 0 <= lo <= hi <= |s| ==> r == s[lo..hi]
    ensures 0 <= lo <= |s| && |s| <= hi ==> r == s[lo..]
    ensures 0 <= hi <= lo ==> r == []
  {
    var a := SliceBound(|s|, lo);
    var b := SliceBound(|s|, hi);
    assert 0 <= lo && a < b ==> a == lo;
    if a < b then s[a..b] else []
  }

  /** Element `i` of `s[lo:hi]`, for a non-negative `lo`, is element `lo + i` of `s`. */
  lemma SliceIndex<T>(s: seq<T>, lo: int, hi: int, i: int)
    requires 0 <= lo && 0 <= i < |Slice(s, lo, hi)|
    ensures lo + i < |s| && Slice(s, lo, hi)[i] == s[lo + i]
  {
  }

  // ---------------------------------------------------------------------------
  // Splitting and joining
  // ---------------------------------------------------------------------------

  /** Python's `s.split(sep, 1)` for a one-character separator. */
  function SplitOnce<T(==)>(s: seq<T>, sep: T): (parts: seq<seq<T>>)
    ensures 1 <= |parts| <= 2
    ensures |parts| == 1 <==> sep !in s
    ensures |parts| == 1 ==> parts[0] == s
    ensures |parts| == 2 ==> s == parts[0] + [sep] + parts[1] && sep !in parts[0]
  {
    var i := IndexOf(s, sep);
    if i < 0 then [s]
    else
      assert s == s[..i] + [sep] + s[i + 1..];
      [s[..i], s[i + 1..]]
  }

  /** Python's `s.split(sep)` for a one-character separator. */
  function Split<T(==)>(s: seq<T>, sep: T): (parts: seq<seq<T>>)
    decreases |s|
    ensures |parts| >= 1
  {
    var i := IndexOf(s, sep);
    if i < 0 then [s] else [s[..i]] + Split(s[i + 1..], sep)
  }

  /** No piece of a split holds the separator. */
  lemma {:induction false} SplitPieces<T>(s: seq<T>, sep: T)
    decreases |s|
    ensures forall k :: 0 <= k < |Split(s, sep)| ==> sep !in Split(s, sep)[k]
  {
    var i := IndexOf(s, sep);
    if i >= 0 {
      SplitPieces(s[i + 1..], sep);
      assert Split(s, sep) == [s[..i]] + Split(s[i + 1..], sep);
    }
  }

  /** Python's `sep.join(parts)`, the inverse of `split`. */
  function Join<T>(parts: seq<seq<T>>, sep: T): seq<T>
    requires |parts| >= 1
  {
    if |parts| == 1 then parts[0] else parts[0] + [sep] + Join(parts[1..], sep)
  }

  lemma Around<T>(s: seq<T>, i: nat)
    requires i < |s|
    ensures s == s[..i] + [s[i]] + s[i + 1..]
  {
  }

  /** Joining the pieces of a split gives back the original. */
  lemma {:induction false} JoinOfSplit<T>(s: seq<T>, sep: T)
    decreases |s|
    ensures Join(Split(s, sep), sep) == s
  {
    var i := IndexOf(s, sep);
    if i < 0 {
      assert Split(s, sep) == [s];
    } else {
      var tail := s[i + 1..];
      JoinOfSplit(tail, sep);
      var parts := Split(s, sep);
      assert parts == [s[..i]] + Split(tail, sep);
      assert parts[1..] == Split(tail, sep);
      assert |parts| > 1;
      assert Join(parts, sep) == parts[0] + [sep] + Join(parts[1..], sep);
      Around(s, i);
    }
  }

  /** Splitting a join of separator-free pieces gives back the pieces. */
  lemma {:induction false} SplitOfJoin<T>(parts: seq<seq<T>>, sep: T)
    requires |parts| >= 1
    requires forall k :: 0 <= k < |parts| ==> sep !in parts[k]
    ensures Split(Join(parts, sep), sep) == parts
  {
    if |parts| > 1 {
      var rest := Join(parts[1..], sep);
      var s := parts[0] + [sep] + rest;
      SplitOfJoin(parts[1..], sep);
      var i := IndexOf(s, sep);
      var n := |parts[0]|;
      assert s[n] == sep;
      assert s[..n] == parts[0];
      assert sep in s[..n + 1] by { assert s[..n + 1][n] == sep; }
      assert i <= n;
      assert i >= n by {
        assert forall k :: 0 <= k < n ==> s[k] == parts[0][k];
      }
      assert s[..i] == parts[0];
      assert s[i + 1..] == rest;
    }
  }

  // ---------------------------------------------------------------------------
  // Replacing
  // ---------------------------------------------------------------------------

  /** Python's `s.replace(pat, rep)` for a non-empty `pat`: every occurrence,
      left to right, without overlaps. */
  function Replace<T(==)>(s: seq<T>, pat: seq<T>, rep: seq<T>): (r: seq<T>)
    requires |pat| > 0
    decreases |s|
    ensures Find(s, pat) == -1 ==> r == s
    ensures |rep| == |pat| ==> |r| == |s|
  {
    var i := Find(s, pat);
    if i < 0 then s else s[..i] + rep + Replace(s[i + |pat|..], pat, rep)
  }

  /** Replacing a pattern by itself changes nothing. */
  lemma {:induction false} ReplaceBySelf<T>(s: seq<T>, pat: seq<T>)
    requires |pat| > 0
    decreases |s|
    ensures Replace(s, pat, pat) == s
  {
    var i := Find(s, pat);
    if i >= 0 {
      ReplaceBySelf(s[i + |pat|..], pat);
      assert s == s[..i] + s[i..i + |pat|] + s[i + |pat|..];
    }
  }

  /** Text before the first occurrence is kept, that occurrence becomes `rep`,
      and the replacement goes on after it. */
  lemma ReplaceAfterFreePrefix<T>(a: seq<T>, pat: seq<T>, rest: seq<T>, rep: seq<T>)
    requires HeadUnique(pat)
    requires Find(a, pat) == -1
    ensures Replace(a + pat + rest, pat, rep) == a + rep + Replace(rest, pat, rep)
  {
    var s := a + pat + rest;
    FindAfterFreePrefix(a, pat, rest);
    assert s[..|a|] == a;
    assert s[|a| + |pat|..] == rest;
  }

  // ---------------------------------------------------------------------------
  // Integers and their decimal text
  // ---------------------------------------------------------------------------

  predicate IsDigit(c: char) {
    '0' <= c <= '9'
  }

  predicate AllDigits(s: string) {
    forall k :: 0 <= k < |s| ==> IsDigit(s[k])
  }

  /** The value of a string of decimal digits. */
  function DigitsValue(ds: string): nat
    requires AllDigits(ds)
    decreases |ds|
  {
    if ds == [] then 0
    else DigitsValue(ds[..|ds| - 1]) * 10 + (ds[|ds| - 1] as int - '0' as int)
  }

  function DigitChar(d: nat): (c: char)
    requires d < 10
    ensures IsDigit(c) && c as int - '0' as int == d
  {
    ('0' as int + d) as char
  }

  /** Python's `str(n)` for `n >= 0`. */
  function NatToString(n: nat): (s: string)
    decreases n
    ensures |s| >= 1 && AllDigits(s)
  {
    if n < 10 then [DigitChar(n)] else NatToString(n / 10) + [DigitChar(n % 10)]
  }

  /** Python's `str(n)` for an integer. */
  function IntToString(n: int): (s: string)
    ensures forall k :: 0 <= k < |s| ==> IsDigit(s[k]) || s[k] == '-'
  {
    if n < 0 then "-" + NatToString(-n) else NatToString(n)
  }

  /** Python's `int(s)` on a decimal literal with an optional sign. */
  function ParseInt(s: string): (r: Result<int>)
    ensures r.Err? ==> r.error == ValueError
    ensures |s| > 0 && AllDigits(s) ==> r == Ok(DigitsValue(s))
  {
    var digits := if |s| > 0 && (s[0] == '-' || s[0] == '+') then s[1..] else s;
    if |digits| == 0 || !AllDigits(digits) then Err(ValueError)
    else if s[0] == '-' then Ok(-(DigitsValue(digits) as int))
    else Ok(DigitsValue(digits))
  }

  lemma {:induction false} NatToStringValue(n: nat)
    decreases n
    ensures DigitsValue(NatToString(n)) == n
  {
    if n >= 10 {
      NatToStringValue(n / 10);
      var s := NatToString(n);
      assert s[..|s| - 1] == NatToString(n / 10);
    }
  }

  /** `int(str(n)) == n`. */
  lemma ParseIntOfIntToString(n: int)
    ensures ParseInt(IntToString(n)) == Ok(n)
  {
    if n < 0 {
      NatToStringValue(-n);
      assert IntToString(n)[1..] == NatToString(-n);
    } else {
      NatToStringValue(n);
    }
  }

  /** Leading zeros do not change the value of a digit string. */
  lemma {:induction false} LeadingZeros(z: string, ds: string)
    requires forall k :: 0 <= k < |z| ==> z[k] == '0'
    requires AllDigits(ds)
    decreases |ds|
    ensures AllDigits(z + ds) && DigitsValue(z + ds) == DigitsValue(ds)
  {
    var s := z + ds;
    assert forall k :: 0 <= k < |s| ==> IsDigit(s[k]);
    if ds == [] {
      assert s == z;
      OnlyZeros(z);
    } else {
      assert s[..|s| - 1] == z + ds[..|ds| - 1];
      LeadingZeros(z, ds[..|ds| - 1]);
    }
  }

  lemma {:induction false} OnlyZeros(z: string)
    requires forall k :: 0 <= k < |z| ==> z[k] == '0'
    decreases |z|
    ensures AllDigits(z) && DigitsValue(z) == 0
  {
    if z != [] {
      OnlyZeros(z[..|z| - 1]);
    }
  }

  /** The zero padding of `date.isoformat()`: the digits of `n`, with zeros
      in front up to `width` characters. */
  function ZeroPad(n: nat, width: nat): (s: string)
    ensures AllDigits(s) && |s| >= 1 && |s| >= width
  {
    var d := NatToString(n);
    if |d| >= width then d else seq(width - |d|, _ => '0') + d
  }

  lemma ParseIntOfZeroPad(n: nat, width: nat)
    ensures ParseInt(ZeroPad(n, width)) == Ok(n)
  {
    var d := NatToString(n);
    NatToStringValue(n);
    if |d| < width {
      LeadingZeros(seq(width - |d|, _ => '0'), d);
    }
  }
}
