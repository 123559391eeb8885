/** Values shared by all modules: an Option type, JSON descriptors as the routes
    receive them, and the handful of string operations the source relies on
    (decimal rendering, zero padding, ASCII lower-casing, prefix tests). */
module Common {

  datatype Option<+T> = None | Some(value: T)

  /** The outcome of one database query: the rows, or the query's `error`. */
  datatype Fetch<+T> = Fetched(rows: seq<T>) | FetchError

  /** A face descriptor as it arrives in JSON: either an array of numbers or a
      plain object, of which only `Object.values` (in enumeration order) is used. */
  datatype Descriptor = ArrayDescriptor(items: seq<real>) | ObjectDescriptor(values: seq<real>)

  /** `Array.isArray(d) ? d : Object.values(d)` */
  function AsArray(d: Descriptor): seq<real>
  {
    match d
    case ArrayDescriptor(items) => items
    case ObjectDescriptor(values) => values
  }

  /** `rows.filter(keep)`, order kept. */
  function Filter<T(!new)>(rows: seq<T>, keep: T -> bool): (r: seq<T>)
    ensures |r| <= |rows|
    ensures forall x :: x in r <==> x in rows && keep(x)
  {
    if rows == [] then []
    else Filter(rows[..|rows| - 1], keep) + (if keep(rows[|rows| - 1]) then [rows[|rows| - 1]] else [])
  }

  /** Supabase `.single()`: a row only when exactly one row matched. */
  function Single<T(!new)>(rows: seq<T>): (r: Option<T>)
    ensures r.Some? <==> |rows| == 1
    ensures r.Some? ==> r.value in rows
  {
    if |rows| == 1 then Some(rows[0]) else None
  }

  function Abs(x: real): real { if x < 0.0 then -x else x }

  function Max(a: int, b: int): int { if a < b then b else a }

  function Min(a: int, b: int): int { if a < b then a else b }

  function MaxReal(a: real, b: real): real { if a < b then b else a }

  function MinReal(a: real, b: real): real { if a < b then a else b }

  // ---------------------------------------------------------------- strings

  /** A JavaScript string value that is truthy: present and not empty. */
  predicate Truthy(s: Option<string>) { s.Some? && s.value != "" }

  predicate StartsWith(s: string, prefix: string) { prefix <= s }

  predicate EndsWith(s: string, suffix: string)
  {
    |suffix| <= |s| && s[|s| - |suffix|..] == suffix
  }

  predicate IsDigit(c: char) { '0' <= c <= '9' }

  predicate AllDigits(s: string) { forall i :: 0 <= i < |s| ==> IsDigit(s[i]) }

  function DigitChar(d: nat): (c: char)
    requires d < 10
    ensures IsDigit(c) && c as int - '0' as int == d
  {
    (('0' as int) + d) as char
  }

  function DigitValue(c: char): nat
    requires IsDigit(c)
  {
    c as int - '0' as int
  }

  /** `String(n)` for a non-negative integer: decimal, no leading zeros. */
  function NatToString(n: nat): (s: string)
    ensures |s| >= 1 && AllDigits(s)
    ensures n < 10 <==> |s| == 1
  {
    if n < 10 then [DigitChar(n)] else NatToString(n / 10) + [DigitChar(n % 10)]
  }

  /** The value of a string of decimal digits (`parseInt` on digits only). */
  function ParseDigits(s: string): nat
    requires AllDigits(s)
  {
    if s == [] then 0 else ParseDigits(s[..|s| - 1]) * 10 + DigitValue(s[|s| - 1])
  }

  /** `s.padStart(width, c)` */
  function PadStart(s: string, width: nat, c: char): (r: string)
    ensures |r| == Max(|s|, width)
    ensures r[|r| - |s|..] == s
    ensures forall i :: 0 <= i < |r| - |s| ==> r[i] == c
  {
    if |s| >= width then s else seq(width - |s|, _ => c) + s
  }

  /** ASCII `toLowerCase()`; characters outside A-Z are unchanged. */
  function Lower(s: string): (r: string)
    ensures |r| == |s|
    ensures forall i :: 0 <= i < |s| ==> r[i] == LowerChar(s[i])
  {
    seq(|s|, i requires 0 <= i < |s| => LowerChar(s[i]))
  }

  function LowerChar(c: char): char
  {
    if 'A' <= c <= 'Z' then (c as int - 'A' as int + 'a' as int) as char else c
  }

  /** `s.split(sep)`: the pieces between separators, at least one. */
  function Split(s: string, sep: char): (r: seq<string>)
    ensures |r| >= 1
    ensures forall i :: 0 <= i < |r| ==> sep !in r[i]
  {
    if s == [] then [""]
    else
      var rest := Split(s[1..], sep);
      if s[0] == sep then [""] + rest else [[s[0]] + rest[0]] + rest[1..]
  }

  /** `pieces.join(sep)` */
  function Join(pieces: seq<string>, sep: char): string
    requires |pieces| >= 1
  {
    if |pieces| == 1 then pieces[0] else pieces[0] + [sep] + Join(pieces[1..], sep)
  }

  // ---------------------------------------------------------------- lemmas

  /** Nothing passes a filter that rejects every row. */
  lemma {:induction false} FilterNone<T(!new)>(rows: seq<T>, keep: T -> bool)
    requires forall x :: x in rows ==> !keep(x)
    ensures Filter(rows, keep) == []
  {
    if rows != [] {
      FilterNone(rows[..|rows| - 1], keep);
    }
  }

  /** A filter that keeps every row returns the rows unchanged. */
  lemma {:induction false} FilterAll<T(!new)>(rows: seq<T>, keep: T -> bool)
    requires forall x :: x in rows ==> keep(x)
    ensures Filter(rows, keep) == rows
  {
    if rows != [] {
      var p, last := rows[..|rows| - 1], rows[|rows| - 1];
      assert forall x :: x in p ==> x in rows;
      assert keep(last) by { assert last in rows; }
      FilterAll(p, keep);
      assert Filter(rows, keep) == Filter(p, keep) + [last];
      DropLastAppend(rows);
    }
  }

  /** Filtering a concatenation filters each part: the kept rows stay in their order. */
  lemma {:induction false} FilterConcat<T(!new)>(a: seq<T>, b: seq<T>, keep: T -> bool)
    ensures Filter(a + b, keep) == Filter(a, keep) + Filter(b, keep)
    decreases |b|
  {
    if b == [] {
      assert a + b == a;
    } else {
      var b', last := b[..|b| - 1], b[|b| - 1];
      var tail := if keep(last) then [last] else [];
      assert (a + b)[..|a + b| - 1] == a + b' && (a + b)[|a + b| - 1] == last;
      FilterConcat(a, b', keep);
      AppendAssoc(Filter(a, keep), Filter(b', keep), tail);
    }
  }

  /** A kept row occurs in the result as often as in the input; a dropped one not at all. */
  lemma {:induction false} FilterCount<T(!new)>(rows: seq<T>, keep: T -> bool, x: T)
    ensures multiset(Filter(rows, keep))[x] == if keep(x) then multiset(rows)[x] else 0
  {
    if rows != [] {
      var p, last := rows[..|rows| - 1], rows[|rows| - 1];
      FilterCount(p, keep, x);
      DropLastAppend(rows);
      assert multiset(rows) == multiset(p) + multiset([last]) by { assert rows == p + [last]; }
    }
  }

  /** The positions whose row passes a filter. */
  function Passing<T>(rows: seq<T>, keep: T -> bool): set<int>
  {
    set i | 0 <= i < |rows| && keep(rows[i])
  }

  /** Adding a row adds its position exactly when it passes. */
  lemma PassingStep<T>(rows: seq<T>, keep: T -> bool)
    requires rows != []
    ensures var n := |rows| - 1;
            Passing(rows, keep) == Passing(rows[..n], keep) + (if keep(rows[n]) then {n} else {}) &&
            n !in Passing(rows[..n], keep)
  {
  }

  /** The filter keeps as many rows as there are positions whose row passes. */
  lemma {:induction false} FilterSize<T(!new)>(rows: seq<T>, keep: T -> bool)
    ensures |Filter(rows, keep)| == |Passing(rows, keep)|
  {
    if rows == [] {
      assert Passing(rows, keep) == {};
    } else {
      var n := |rows| - 1;
      FilterSize(rows[..n], keep);
      PassingStep(rows, keep);
    }
  }

  /** The first kept row is the first row that passes the filter. */
  lemma {:induction false} FilterFirst<T(!new)>(rows: seq<T>, keep: T -> bool)
    requires Filter(rows, keep) != []
    ensures exists k :: 0 <= k < |rows| && rows[k] == Filter(rows, keep)[0] && keep(rows[k]) &&
              forall j :: 0 <= j < k ==> !keep(rows[j])
  {
    var p, last := rows[..|rows| - 1], rows[|rows| - 1];
    var f, fp := Filter(rows, keep), Filter(p, keep);
    assert f == fp + (if keep(last) then [last] else []);
    if fp != [] {
      FilterFirst(p, keep);
      var k :| 0 <= k < |p| && p[k] == fp[0] && keep(p[k]) && forall j :: 0 <= j < k ==> !keep(p[j]);
      assert f[0] == fp[0];
      assert rows[k] == p[k] && forall j :: 0 <= j < k ==> rows[j] == p[j];
    } else {
      assert f == [last];
      forall j | 0 <= j < |p|
        ensures !keep(rows[j])
      {
        assert rows[j] == p[j] && p[j] in p;
      }
    }
  }

  /** Every row that passes comes after the `k`th, which passes: the filter starts with it. */
  lemma FilterFirstAt<T(!new)>(rows: seq<T>, keep: T -> bool)
    ensures forall k :: 0 <= k < |rows| && keep(rows[k]) && (forall j :: 0 <= j < k ==> !keep(rows[j])) ==>
              Filter(rows, keep) != [] && Filter(rows, keep)[0] == rows[k]
  {
    forall k | 0 <= k < |rows| && keep(rows[k]) && (forall j :: 0 <= j < k ==> !keep(rows[j]))
      ensures Filter(rows, keep) != [] && Filter(rows, keep)[0] == rows[k]
    {
      var f := Filter(rows, keep);
      assert rows[k] in f;
      FilterFirst(rows, keep);
      var k' :| 0 <= k' < |rows| && rows[k'] == f[0] && keep(rows[k']) && forall j :: 0 <= j < k' ==> !keep(rows[j]);
      assert !(k' < k) && !(k < k');
    }
  }

  /** When the `i`th row is the only one that passes, the filter returns just it. */
  lemma {:induction false} FilterOnly<T(!new)>(rows: seq<T>, keep: T -> bool, i: int)
    requires 0 <= i < |rows| && keep(rows[i])
    requires forall j :: 0 <= j < |rows| && j != i ==> !keep(rows[j])
    ensures Filter(rows, keep) == [rows[i]]
  {
    var p, last := rows[..|rows| - 1], rows[|rows| - 1];
    if i == |rows| - 1 {
      forall x | x in p
        ensures !keep(x)
      {
        var j :| 0 <= j < |p| && p[j] == x;
        assert rows[j] == x;
      }
      FilterNone(p, keep);
    } else {
      assert !keep(last);
      forall j | 0 <= j < |p| && j != i
        ensures !keep(p[j])
      {
        assert p[j] == rows[j];
      }
      FilterOnly(p, keep, i);
    }
  }

  /** Two passing positions leave at least two rows. */
  lemma FilterTwo<T(!new)>(rows: seq<T>, keep: T -> bool, i: int, j: int)
    requires 0 <= i < j < |rows| && keep(rows[i]) && keep(rows[j])
    ensures |Filter(rows, keep)| >= 2
  {
    FilterSize(rows, keep);
    var two := {i, j};
    assert |two| == 2;
    assert two <= Passing(rows, keep);
  }

  /** `.single()` on a filtered query: a row comes back only when it passes the
      filter and every passing row equals it; no passing row gives none, and
      when exactly one row passes, that row comes back; two passing rows give none. */
  lemma SingleFilter<T(!new)>(rows: seq<T>, keep: T -> bool)
    ensures var r := Single(Filter(rows, keep));
            (r.Some? ==> r.value in rows && keep(r.value) && forall x :: x in rows && keep(x) ==> x == r.value) &&
            ((forall x :: x in rows ==> !keep(x)) ==> r.None?)
    ensures forall i :: 0 <= i < |rows| && keep(rows[i]) && (forall j :: 0 <= j < |rows| && j != i ==> !keep(rows[j])) ==>
              Single(Filter(rows, keep)) == Some(rows[i])
    ensures (exists i, j :: 0 <= i < j < |rows| && keep(rows[i]) && keep(rows[j])) ==> Single(Filter(rows, keep)).None?
  {
    var f := Filter(rows, keep);
    if |f| == 1 {
      assert f[0] in f;
    }
    forall i | 0 <= i < |rows| && keep(rows[i]) && (forall j :: 0 <= j < |rows| && j != i ==> !keep(rows[j]))
      ensures Single(Filter(rows, keep)) == Some(rows[i])
    {
      FilterOnly(rows, keep, i);
    }
    forall i, j | 0 <= i < j < |rows| && keep(rows[i]) && keep(rows[j])
      ensures Single(Filter(rows, keep)).None?
    {
      FilterTwo(rows, keep, i, j);
    }
  }

  lemma AppendAssoc<T>(a: seq<T>, b: seq<T>, c: seq<T>)
    ensures a + b + c == a + (b + c)
  {
  }

  lemma DropLastAppend<T>(s: seq<T>)
    requires s != []
    ensures s[..|s| - 1] + [s[|s| - 1]] == s
  {
  }

  lemma DropLastOfAppend<T>(a: seq<T>, b: seq<T>)
    requires b != []
    ensures (a + b)[..|a + b| - 1] == a + b[..|b| - 1]
  {
  }

  /** A string without the separator is one piece. */
  lemma {:induction false} SplitWithoutSeparator(s: string, sep: char)
    requires sep !in s
    ensures Split(s, sep) == [s]
  {
    if s != [] {
      assert sep !in s[1..] by { assert forall i :: 0 <= i < |s[1..]| ==> s[1..][i] == s[i + 1]; }
      SplitWithoutSeparator(s[1..], sep);
      assert [s[0]] + s[1..] == s;
    }
  }

  /** A string holding the separator splits into at least two pieces. */
  lemma {:induction false} SplitAtLeastTwo(s: string, sep: char)
    requires sep in s
    ensures |Split(s, sep)| >= 2
  {
    if s[0] != sep {
      assert sep in s[1..] by {
        var i :| 0 <= i < |s| && s[i] == sep;
        assert s[1..][i - 1] == sep;
      }
      SplitAtLeastTwo(s[1..], sep);
    }
  }

  /** The first separator ends the first piece. */
  lemma {:induction false} SplitAtSeparator(a: string, b: string, sep: char)
    requires sep !in a
    ensures Split(a + [sep] + b, sep) == [a] + Split(b, sep)
  {
    var s := a + [sep] + b;
    if a == [] {
      assert s[1..] == b;
    } else {
      assert s[1..] == a[1..] + [sep] + b;
      assert sep !in a[1..] by { assert forall i :: 0 <= i < |a[1..]| ==> a[1..][i] == a[i + 1]; }
      SplitAtSeparator(a[1..], b, sep);
      assert [a[0]] + a[1..] == a;
    }
  }

  /** The first piece is the text before the first separator. */
  lemma {:induction false} FirstPiece(s: string, sep: char)
    ensures var f := Split(s, sep)[0];
            f <= s && sep !in f && (|f| < |s| ==> s[|f|] == sep)
  {
    if s != [] && s[0] != sep {
      FirstPiece(s[1..], sep);
    }
  }

  /** Conversely, a separator-free prefix ended by the separator (or by the end
      of the string) is the first piece. */
  lemma FirstPieceOf(a: string, s: string, sep: char)
    requires sep !in a && a <= s && (|a| < |s| ==> s[|a|] == sep)
    ensures Split(s, sep)[0] == a
  {
    if |a| == |s| {
      assert s == a;
      SplitWithoutSeparator(s, sep);
    } else {
      assert s == a + [sep] + s[|a| + 1..];
      SplitAtSeparator(a, s[|a| + 1..], sep);
    }
  }

  /** Splitting loses nothing: joining the pieces back gives the string. */
  lemma {:induction false} JoinSplit(s: string, sep: char)
    ensures Join(Split(s, sep), sep) == s
  {
    if s != [] {
      var rest := Split(s[1..], sep);
      JoinSplit(s[1..], sep);
      if s[0] == sep {
        assert ([""] + rest)[1..] == rest;
        assert s == [s[0]] + s[1..];
      } else {
        var r := [[s[0]] + rest[0]] + rest[1..];
        if |rest| == 1 {
          assert s == [s[0]] + s[1..];
        } else {
          assert r[1..] == rest[1..];
          assert Join(rest, sep) == rest[0] + [sep] + Join(rest[1..], sep);
          assert s == [s[0]] + s[1..];
        }
      }
    }
  }

  /** Decimal rendering and digit parsing are inverse. */
  lemma {:induction false} ParseNatToString(n: nat)
    ensures ParseDigits(NatToString(n)) == n
  {
    if n >= 10 {
      var p := NatToString(n / 10);
      var s := p + [DigitChar(n % 10)];
      assert s[..|s| - 1] == p;
      ParseNatToString(n / 10);
    }
  }

  /** Leading zeros do not change the value of a digit string. */
  lemma {:induction false} ParseLeadingZeros(k: nat, s: string)
    requires AllDigits(s)
    ensures AllDigits(seq(k, _ => '0') + s)
    ensures ParseDigits(seq(k, _ => '0') + s) == ParseDigits(s)
  {
    var z: string := seq(k, _ => '0');
    if s == [] {
      assert z + s == z;
      ZerosParseToZero(k);
    } else {
      var s' := s[..|s| - 1];
      assert (z + s)[..|z + s| - 1] == z + s';
      ParseLeadingZeros(k, s');
    }
  }

  lemma {:induction false} ZerosParseToZero(k: nat)
    ensures AllDigits(seq(k, _ => '0'))
    ensures ParseDigits(seq(k, _ => '0')) == 0
  {
    if k > 0 {
      var z: string := seq(k, _ => '0');
      assert z[..k - 1] == seq(k - 1, _ => '0');
      ZerosParseToZero(k - 1);
    }
  }

  /** Zero padding a decimal rendering keeps its value. */
  lemma ParsePadded(n: nat, width: nat)
    ensures AllDigits(PadStart(NatToString(n), width, '0'))
    ensures ParseDigits(PadStart(NatToString(n), width, '0')) == n
  {
    var s := NatToString(n);
    ParseNatToString(n);
    if |s| < width {
      ParseLeadingZeros(width - |s|, s);
    }
  }

  /** Numbers below 10^k render in at most k digits, and numbers from 10^(k-1)
      in at least k digits; here for the two widths the source pads to. */
  lemma {:induction false} NatToStringLength(n: nat)
    ensures n < 100 ==> |NatToString(n)| <= 2
    ensures n < 1000 ==> |NatToString(n)| <= 3
    ensures n >= 1000 ==> |NatToString(n)| >= 4
  {
    if n >= 10 {
      NatToStringLength(n / 10);
    }
  }
}
