/** Sequence and text helpers: Python's `str.startswith`/`str.endswith`,
    `str.split` and `str.join` on a one-element separator, and `str(n)` and
    `int(s)` for decimal digit strings. */
module Strings {

  predicate StartsWith<T(==)>(s: seq<T>, prefix: seq<T>) {
    |prefix| <= |s| && s[..|prefix|] == prefix
  }

  predicate EndsWith<T(==)>(s: seq<T>, suffix: seq<T>) {
    |suffix| <= |s| && s[|s| - |suffix|..] == suffix
  }

  lemma EndsWithAppend<T>(a: seq<T>, b: seq<T>)
    ensures EndsWith(a + b, b)
  {
    assert (a + b)[|a + b| - |b|..] == b;
  }

  /** An ending of an ending is an ending. */
  lemma EndsWithTail<T>(s: seq<T>, a: seq<T>, b: seq<T>)
    requires EndsWith(s, a + b)
    ensures EndsWith(s, b)
  {
    assert s[|s| - |b|..] == (a + b)[|a|..];
  }

  function Last<T>(s: seq<T>): T
    requires |s| > 0
  {
    s[|s| - 1]
  }

  /** `sep.join(parts)` for a one-element separator. */
  function Join<T>(parts: seq<seq<T>>, sep: T): seq<T>
    requires |parts| > 0
    decreases |parts|
  {
    if |parts| == 1 then parts[0] else parts[0] + [sep] + Join(parts[1..], sep)
  }

  /** `s.split(sep)` for a one-element separator: the maximal separator-free
      pieces of `s`, in order, including empty pieces at the ends and between
      adjacent separators (`JoinSplit` shows that joining them gives `s` back). */
  function Split<T(==)>(s: seq<T>, sep: T): (r: seq<seq<T>>)
    ensures |r| > 0
    ensures forall i :: 0 <= i < |r| ==> sep !in r[i]
    decreases |s|
  {
    if |s| == 0 then [[]]
    else
      var rest := Split(s[1..], sep);
      if s[0] == sep then [[]] + rest else [[s[0]] + rest[0]] + rest[1..]
  }

  /** Joining the pieces of a split gives back the original sequence. */
  lemma {:induction false} JoinSplit<T>(s: seq<T>, sep: T)
    ensures Join(Split(s, sep), sep) == s
    decreases |s|
  {
    if |s| > 0 {
      var rest := Split(s[1..], sep);
      JoinSplit(s[1..], sep);
      assert [s[0]] + s[1..] == s;
      if s[0] != sep {
        var r := Split(s, sep);
        assert r == [[s[0]] + rest[0]] + rest[1..];
        assert r[1..] == rest[1..];
        if |rest| > 1 {
          assert Join(rest, sep) == rest[0] + [sep] + Join(rest[1..], sep);
          assert Join(r, sep) == ([s[0]] + rest[0]) + [sep] + Join(rest[1..], sep);
        }
      }
    }
  }

  /** A separator-free sequence is its own single piece. */
  lemma {:induction false} SplitSeparatorFree<T>(s: seq<T>, sep: T)
    requires sep !in s
    ensures Split(s, sep) == [s]
    decreases |s|
  {
    if |s| > 0 {
      SplitSeparatorFree(s[1..], sep);
      assert [s[0]] + s[1..] == s;
    }
  }

  /** Splitting a separator-free head followed by a separator. */
  lemma {:induction false} SplitCons<T>(a: seq<T>, b: seq<T>, sep: T)
    requires sep !in a
    ensures Split(a + [sep] + b, sep) == [a] + Split(b, sep)
    decreases |a|
  {
    if |a| == 0 {
      assert a + [sep] + b == [sep] + b;
      assert ([sep] + b)[1..] == b;
    } else {
      var s := a + [sep] + b;
      assert s[0] == a[0];
      assert s[1..] == a[1..] + [sep] + b;
      SplitCons(a[1..], b, sep);
      assert [a[0]] + a[1..] == a;
    }
  }

  /** Splitting is the inverse of joining separator-free pieces. */
  lemma {:induction false} SplitJoin<T>(parts: seq<seq<T>>, sep: T)
    requires |parts| > 0
    requires forall i :: 0 <= i < |parts| ==> sep !in parts[i]
    ensures Split(Join(parts, sep), sep) == parts
    decreases |parts|
  {
    if |parts| == 1 {
      SplitSeparatorFree(parts[0], sep);
    } else {
      SplitJoin(parts[1..], sep);
      SplitCons(parts[0], Join(parts[1..], sep), sep);
      assert [parts[0]] + parts[1..] == parts;
    }
  }

  /** Joining a concatenation of piece lists. */
  lemma {:induction false} JoinAppend<T>(xs: seq<seq<T>>, ys: seq<seq<T>>, sep: T)
    requires |xs| > 0 && |ys| > 0
    ensures Join(xs + ys, sep) == Join(xs, sep) + [sep] + Join(ys, sep)
    decreases |xs|
  {
    if |xs| == 1 {
      assert (xs + ys)[1..] == ys;
    } else {
      assert (xs + ys)[1..] == xs[1..] + ys;
      JoinAppend(xs[1..], ys, sep);
    }
  }

  /** Joining pieces ends with a separator and the last piece. */
  lemma JoinLast<T>(parts: seq<seq<T>>, sep: T)
    requires |parts| > 1
    ensures Join(parts, sep) == Join(parts[..|parts| - 1], sep) + ([sep] + Last(parts))
  {
    var init := parts[..|parts| - 1];
    assert Join(parts, sep) == Join(init, sep) + [sep] + Last(parts) by {
      assert parts == init + [Last(parts)];
      JoinAppend(init, [Last(parts)], sep);
    }
    Regroup(Join(init, sep), [sep], Last(parts));
  }

  lemma Regroup<T>(x: seq<T>, y: seq<T>, z: seq<T>)
    ensures (x + y) + z == x + (y + z)
  {
  }

  /** Continuing the last piece with `b` is the same as replacing it by
      pieces that join to it followed by `b`. */
  lemma JoinReplaceLast<T>(init: seq<seq<T>>, last: seq<T>, q: seq<seq<T>>, b: seq<T>, sep: T)
    requires |init| > 0 && |q| > 0 && Join(q, sep) == last + b
    ensures Join(init + [last], sep) + b == Join(init + q, sep)
  {
    var j := Join(init, sep);
    assert Join(init + [last], sep) == j + [sep] + last by {
      JoinAppend(init, [last], sep);
    }
    assert Join(init + q, sep) == j + [sep] + (last + b) by {
      JoinAppend(init, q, sep);
    }
    Regroup(j + [sep], last, b);
  }

  /** Two lists of separator-free pieces make one. */
  lemma PiecesFreeAppend<T>(xs: seq<seq<T>>, ys: seq<seq<T>>, sep: T)
    requires forall i :: 0 <= i < |xs| ==> sep !in xs[i]
    requires forall i :: 0 <= i < |ys| ==> sep !in ys[i]
    ensures forall i :: 0 <= i < |xs + ys| ==> sep !in (xs + ys)[i]
  {
    forall i | 0 <= i < |xs + ys| ensures sep !in (xs + ys)[i] {
      if i >= |xs| {
        assert (xs + ys)[i] == ys[i - |xs|];
      }
    }
  }

  /** Splitting a concatenation: the complete pieces of `a` are kept, and
      the unfinished last piece of `a` is continued by `b`. */
  lemma SplitAppend<T>(a: seq<T>, b: seq<T>, sep: T)
    ensures Split(a + b, sep)
         == Split(a, sep)[..|Split(a, sep)| - 1] + Split(Last(Split(a, sep)) + b, sep)
  {
    var P := Split(a, sep);
    var init, L := P[..|P| - 1], Last(P);
    var Q := Split(L + b, sep);
    JoinSplit(a, sep);
    JoinSplit(L + b, sep);
    if |P| == 1 {
      assert init + Q == Q;
      assert a == L;
    } else {
      assert P == init + [L];
      JoinReplaceLast(init, L, Q, b, sep);
      PiecesFreeAppend(init, Q, sep);
      SplitJoin(init + Q, sep);
    }
  }

  /** The last piece of a split is a separator-free ending of the
      sequence: the whole of it, or what follows its last separator. */
  lemma LastPieceIsSuffix<T>(s: seq<T>, sep: T)
    ensures sep !in Last(Split(s, sep)) && EndsWith(s, Last(Split(s, sep)))
    ensures Last(Split(s, sep)) == s || EndsWith(s, [sep] + Last(Split(s, sep)))
  {
    var parts := Split(s, sep);
    var L := Last(parts);
    JoinSplit(s, sep);
    if |parts| > 1 {
      var head := Join(parts[..|parts| - 1], sep);
      JoinLast(parts, sep);
      EndsWithAppend(head, [sep] + L);
      EndsWithTail(s, [sep], L);
    }
  }

  /** The last piece after a separator is everything after that separator,
      provided it is separator-free. */
  lemma LastPieceAfterSeparator<T>(a: seq<T>, b: seq<T>, sep: T)
    requires sep !in b
    ensures Last(Split(a + [sep] + b, sep)) == b
  {
    SplitAppend(a, [sep] + b, sep);
    var L := Last(Split(a, sep));
    Regroup(a, [sep], b);
    Regroup(L, [sep], b);
    SplitCons(L, b, sep);
    SplitSeparatorFree(b, sep);
  }

  predicate IsDigit(c: char) {
    '0' <= c <= '9'
  }

  predicate AllDigits(s: string) {
    forall i :: 0 <= i < |s| ==> IsDigit(s[i])
  }

  /** The number an ASCII decimal digit string denotes (Python's `int`). */
  function DigitsValue(s: string): nat
    requires AllDigits(s)
    decreases |s|
  {
    if |s| == 0 then 0 else DigitsValue(s[..|s| - 1]) * 10 + (s[|s| - 1] as int - '0' as int)
  }

  function Pow10(k: nat): (r: nat)
    ensures r >= 1
  {
    if k == 0 then 1 else 10 * Pow10(k - 1)
  }

  lemma AllDigitsAppend(p: string, t: string)
    requires AllDigits(p) && AllDigits(t)
    ensures AllDigits(p + t)
  {
    forall i | 0 <= i < |p + t| ensures IsDigit((p + t)[i]) {
      if i < |p| { assert (p + t)[i] == p[i]; } else { assert (p + t)[i] == t[i - |p|]; }
    }
  }

  /** The value of a concatenation of digit strings. */
  lemma {:induction false} DigitsValueAppend(p: string, t: string)
    requires AllDigits(p) && AllDigits(t)
    ensures AllDigits(p + t)
    ensures DigitsValue(p + t) == DigitsValue(p) * Pow10(|t|) + DigitsValue(t)
    decreases |t|
  {
    AllDigitsAppend(p, t);
    if |t| == 0 {
      assert p + t == p;
    } else {
      var t' := t[..|t| - 1];
      assert (p + t)[..|p + t| - 1] == p + t';
      assert AllDigits(t');
      DigitsValueAppend(p, t');
      var d := t[|t| - 1] as int - '0' as int;
      assert DigitsValue(p + t) == DigitsValue(p + t') * 10 + d;
      assert DigitsValue(t) == DigitsValue(t') * 10 + d;
      ShiftByTen(DigitsValue(p), Pow10(|t'|), DigitsValue(t'), d);
    }
  }

  /** `(v * w + u) * 10 + d == v * (10 * w) + (u * 10 + d)`. */
  lemma ShiftByTen(v: nat, w: nat, u: nat, d: int)
    ensures (v * w + u) * 10 + d == v * (10 * w) + (u * 10 + d)
  {
    assert (v * w) * 10 == v * (10 * w);
  }

  /** A digit string that does not start with `0` denotes a positive number. */
  lemma {:induction false} LeadingDigitPositive(s: string)
    requires |s| > 0 && AllDigits(s) && s[0] != '0'
    ensures DigitsValue(s) >= 1
    decreases |s|
  {
    if |s| > 1 {
      var init := s[..|s| - 1];
      assert init[0] == s[0] && AllDigits(init);
      LeadingDigitPositive(init);
    }
  }

  /** `str(n)` for a natural number: decimal digits without leading zeros. */
  function NatToString(n: nat): (r: string)
    ensures |r| > 0 && AllDigits(r)
    ensures r[0] == '0' ==> n == 0
    ensures DigitsValue(r) == n
    decreases n
  {
    var d := [(('0' as int) + n % 10) as char];
    if n < 10 then d
    else
      var h := NatToString(n / 10);
      assert (h + d)[..|h + d| - 1] == h;
      h + d
  }

  /** `str(i)` for any integer. */
  function IntToString(i: int): (r: string)
    ensures i >= 0 ==> r == NatToString(i)
    ensures i < 0 ==> r == "-" + NatToString(-i)
  {
    if i < 0 then "-" + NatToString(-i) else NatToString(i)
  }

  /** The length of the maximal run of ASCII digits starting at `i`. */
  function DigitRun(s: string, i: nat): (n: nat)
    requires i <= |s|
    ensures i + n <= |s|
    ensures forall k :: i <= k < i + n ==> IsDigit(s[k])
    ensures i + n == |s| || !IsDigit(s[i + n])
    decreases |s| - i
  {
    if i < |s| && IsDigit(s[i]) then 1 + DigitRun(s, i + 1) else 0
  }
}
