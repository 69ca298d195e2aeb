/** The stock Option datatype, used for the partial decoders. */
module Wrappers {
  datatype Option<T> = None | Some(value: T)
}

/**
 Text helpers the writer relies on: decimal rendering of integers (as Python's
 `%i` and `%s` format them), `sep.join(parts)`, `s.split(d)` and a split at the
 first occurrence of a character, each with the lemmas that make them inverse
 to one another.
 */
module Strings {
  import opened Wrappers

  predicate IsDigit(c: char) {
    '0' <= c <= '9'
  }

  predicate AllDigits(s: string) {
    forall i :: 0 <= i < |s| ==> IsDigit(s[i])
  }

  function DigitChar(d: nat): (c: char)
    requires d < 10
    ensures IsDigit(c)
  {
    (48 + d) as char
  }

  function DigitValue(c: char): (d: nat)
    requires IsDigit(c)
    ensures d < 10 && DigitChar(d) == c
  {
    c as int - 48
  }

  /** Decimal rendering of a natural number: no sign, no leading zeros. */
  function NatToString(n: nat): (s: string)
    ensures 1 <= |s| && AllDigits(s)
    ensures |s| > 1 ==> s[0] != '0'
    decreases n
  {
    if n < 10 then [DigitChar(n)] else NatToString(n / 10) + [DigitChar(n % 10)]
  }

  /** Decimal rendering of an integer, with a leading '-' when it is negative. */
  function IntToString(i: int): (s: string)
    ensures 1 <= |s|
    ensures ' ' !in s && '\n' !in s
  {
    if i < 0 then "-" + NatToString(-i) else NatToString(i)
  }

  /** The value of a string of decimal digits, most significant first. */
  function DigitsValue(s: string): nat
    requires AllDigits(s)
  {
    if |s| == 0 then 0 else DigitsValue(s[..|s| - 1]) * 10 + DigitValue(s[|s| - 1])
  }

  function ParseNat(s: string): Option<nat> {
    if 0 < |s| && AllDigits(s) then Some(DigitsValue(s)) else None
  }

  function ParseInt(s: string): Option<int> {
    if 0 < |s| && s[0] == '-' then
      match ParseNat(s[1..])
      case Some(n) => var v: int := n; Some(-v)
      case None => None
    else
      match ParseNat(s)
      case Some(n) => Some(n)
      case None => None
  }

  lemma {:induction false} DigitsValueOfNatToString(n: nat)
    ensures DigitsValue(NatToString(n)) == n
    decreases n
  {
    var s := NatToString(n);
    if n >= 10 {
      var t := NatToString(n / 10);
      assert s == t + [DigitChar(n % 10)];
      assert s[..|s| - 1] == t;
      DigitsValueOfNatToString(n / 10);
    }
  }

  /** Reading back a rendered natural number gives the number. */
  lemma ParseNatToString(n: nat)
    ensures ParseNat(NatToString(n)) == Some(n)
  {
    DigitsValueOfNatToString(n);
  }

  /** Reading back a rendered integer gives the integer. */
  lemma ParseIntToString(i: int)
    ensures ParseInt(IntToString(i)) == Some(i)
  {
    if i < 0 {
      var s := IntToString(i);
      assert s[1..] == NatToString(-i);
      ParseNatToString(-i);
    } else {
      ParseNatToString(i);
    }
  }

  /** `sep.join(parts)`: the parts in order with one `sep` between neighbours. */
  function Join(sep: string, parts: seq<string>): string
  {
    if |parts| == 0 then ""
    else if |parts| == 1 then parts[0]
    else parts[0] + sep + Join(sep, parts[1..])
  }

  lemma {:induction false} JoinAppend(sep: string, a: seq<string>, b: seq<string>)
    requires |a| > 0 && |b| > 0
    ensures Join(sep, a + b) == Join(sep, a) + sep + Join(sep, b)
    decreases |a|
  {
    assert (a + b)[0] == a[0];
    assert (a + b)[1..] == a[1..] + b;
    if |a| > 1 {
      JoinAppend(sep, a[1..], b);
    }
  }

  /** Joining one more part adds exactly one separator and the part, at the end. */
  lemma JoinSnoc(sep: string, a: seq<string>, p: string)
    ensures Join(sep, a + [p]) == if |a| == 0 then p else Join(sep, a) + sep + p
  {
    if |a| == 0 {
      assert a + [p] == [p];
    } else {
      JoinAppend(sep, a, [p]);
    }
  }

  lemma JoinPair(sep: string, x: string, y: string)
    ensures Join(sep, [x, y]) == x + sep + y
  {
    assert [x, y][1..] == [y];
  }

  /** `s.split(d)` as Python computes it: `"".split(d) == [""]`. */
  function Split(s: string, d: char): (r: seq<string>)
    ensures |r| >= 1
    decreases |s|
  {
    if |s| == 0 then [""]
    else
      var rest := Split(s[1..], d);
      if s[0] == d then [""] + rest else [[s[0]] + rest[0]] + rest[1..]
  }

  lemma {:induction false} SplitWithout(s: string, d: char)
    requires d !in s
    ensures Split(s, d) == [s]
    decreases |s|
  {
    if |s| > 0 {
      SplitWithout(s[1..], d);
      assert [s[0]] + s[1..] == s;
    }
  }

  lemma {:induction false} SplitAround(a: string, d: char, b: string)
    ensures Split(a + [d] + b, d) == Split(a, d) + Split(b, d)
    decreases |a|
  {
    var s := a + [d] + b;
    if |a| == 0 {
      assert s[1..] == b;
    } else {
      assert s[0] == a[0];
      assert s[1..] == a[1..] + [d] + b;
      SplitAround(a[1..], d, b);
    }
  }

  /** Splitting a join recovers the parts, when no part holds the delimiter. */
  lemma {:induction false} SplitJoin(d: char, parts: seq<string>)
    requires |parts| > 0
    requires forall i :: 0 <= i < |parts| ==> d !in parts[i]
    ensures Split(Join([d], parts), d) == parts
    decreases |parts|
  {
    if |parts| == 1 {
      SplitWithout(parts[0], d);
    } else {
      SplitAround(parts[0], d, Join([d], parts[1..]));
      SplitWithout(parts[0], d);
      SplitJoin(d, parts[1..]);
    }
  }

  /** When no piece of the split is empty, the delimiter is never doubled and
      neither begins nor ends the text. */
  lemma {:induction false} NoEmptyPiece(s: string, d: char)
    requires forall i :: 0 <= i < |Split(s, d)| ==> Split(s, d)[i] != ""
    ensures |s| > 0 && s[0] != d && s[|s| - 1] != d
    ensures forall i :: 0 <= i < |s| - 1 ==> !(s[i] == d && s[i + 1] == d)
    decreases |s|
  {
    assert Split(s, d)[0] != "";
    var t := s[1..];
    if |t| > 0 {
      var rest := Split(t, d);
      if t[0] == d {
        assert rest == [""] + Split(t[1..], d);
        assert [s[0]] + rest[0] == [s[0]];
        assert Split(s, d) == [[s[0]]] + Split(t[1..], d);
        forall i | 0 <= i < |Split(t[1..], d)|
          ensures Split(t[1..], d)[i] != ""
        {
          assert Split(t[1..], d)[i] == Split(s, d)[i + 1];
        }
        NoEmptyPiece(t[1..], d);
        assert s == [s[0], d] + t[1..];
      } else {
        assert rest[0] != "";
        forall i | 0 <= i < |rest|
          ensures rest[i] != ""
        {
          if i > 0 {
            assert rest[i] == Split(s, d)[i];
          }
        }
        NoEmptyPiece(t, d);
        assert s == [s[0]] + t;
      }
    }
  }

  /** The text before and the text after the first `c`, when there is one;
      `None` when `s` holds no `c`. */
  function SplitAtFirst(s: string, c: char): Option<(string, string)>
    decreases |s|
  {
    if |s| == 0 then None
    else if s[0] == c then Some(("", s[1..]))
    else
      match SplitAtFirst(s[1..], c)
      case Some((a, b)) => Some(([s[0]] + a, b))
      case None => None
  }

  lemma {:induction false} SplitAtFirstAround(a: string, c: char, b: string)
    requires c !in a
    ensures SplitAtFirst(a + [c] + b, c) == Some((a, b))
    decreases |a|
  {
    var s := a + [c] + b;
    if |a| == 0 {
      assert s[1..] == b;
    } else {
      assert s[0] == a[0];
      assert s[1..] == a[1..] + [c] + b;
      SplitAtFirstAround(a[1..], c, b);
      assert [a[0]] + a[1..] == a;
    }
  }
}
