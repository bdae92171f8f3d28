/** Duration strings `HH:MM:SS`: splitting on `:`, reading a component as JavaScript's
    `Number` does, and the fact that for zero-padded strings the ordinal string order is
    the chronological order. */
module TimeCodec {
  import opened Lex

  datatype Option<T> = None | Some(value: T)

  /** `s.split(sep)`: the pieces between separators, including empty ones, so there is
      always at least one piece. */
  function SplitOn(s: string, sep: char): (parts: seq<string>)
    ensures |parts| >= 1
    ensures forall i :: 0 <= i < |parts| ==> sep !in parts[i]
  {
    if s == [] then [[]]
    else
      var rest := SplitOn(s[1..], sep);
      if s[0] == sep then [[]] + rest else [[s[0]] + rest[0]] + rest[1..]
  }

  /** `parts.join(sep)`, the inverse of SplitOn. */
  function Join(parts: seq<string>, sep: char): string
    requires |parts| >= 1
  {
    if |parts| == 1 then parts[0] else parts[0] + [sep] + Join(parts[1..], sep)
  }

  lemma {:induction false} JoinSplit(s: string, sep: char)
    ensures Join(SplitOn(s, sep), sep) == s
  {
    if s != [] {
      var rest := SplitOn(s[1..], sep);
      JoinSplit(s[1..], sep);
      if s[0] == sep {
        assert SplitOn(s, sep)[1..] == rest;
        assert s == [] + [sep] + s[1..];
      } else {
        var parts := SplitOn(s, sep);
        assert parts[0] == [s[0]] + rest[0];
        if |rest| == 1 {
          assert s == [s[0]] + s[1..];
        } else {
          assert parts[1..] == rest[1..];
          assert s == [s[0]] + (rest[0] + [sep] + Join(rest[1..], sep));
        }
      }
    }
  }

  /** A piece without separators splits to itself. */
  lemma {:induction false} SplitOnNoSep(x: string, sep: char)
    requires sep !in x
    ensures SplitOn(x, sep) == [x]
  {
    if x != [] {
      SplitOnNoSep(x[1..], sep);
      assert x == [x[0]] + x[1..];
    }
  }

  /** Splitting `x + [sep] + y` gives the pieces of `x` followed by the pieces of `y`. */
  lemma {:induction false} SplitOnAppend(x: string, sep: char, y: string)
    ensures SplitOn(x + [sep] + y, sep) == SplitOn(x, sep) + SplitOn(y, sep)
  {
    var s := x + [sep] + y;
    if x == [] {
      assert s == [sep] + y;
      assert s[1..] == y;
    } else {
      assert s[0] == x[0] && s[1..] == x[1..] + [sep] + y;
      SplitOnAppend(x[1..], sep, y);
    }
  }

  predicate IsDigit(c: char)
  {
    '0' <= c <= '9'
  }

  predicate AllDigits(s: string)
  {
    forall i :: 0 <= i < |s| ==> IsDigit(s[i])
  }

  /** The decimal value of a run of digits. */
  function DigitsValue(s: string): nat
    requires AllDigits(s)
  {
    if s == [] then 0
    else
      assert IsDigit(s[|s| - 1]);
      10 * DigitsValue(s[..|s| - 1]) + ((s[|s| - 1] as int) - ('0' as int))
  }

  /** `Number(s)` on a component, restricted to integers: the empty string is 0, an
      optional sign followed by decimal digits is that integer, anything else is NaN
      (here `None`), which makes every comparison false. */
  function ParseNumber(s: string): (n: Option<int>)
    ensures s == [] ==> n == Some(0)
    ensures n.Some? && |s| > 0 && IsDigit(s[0]) ==> n.value >= 0
  {
    if s == [] then Some(0)
    else if AllDigits(s) then Some(DigitsValue(s))
    else if |s| > 1 && (s[0] == '+' || s[0] == '-') && AllDigits(s[1..]) then
      var v: int := DigitsValue(s[1..]);
      Some(if s[0] == '-' then -v else v)
    else None
  }

  /** `Number(parts[k])` compared with `bound`: false when the component is missing
      (`undefined`) or NaN. */
  predicate FieldBelow(parts: seq<string>, k: nat, bound: int)
  {
    k < |parts| && match ParseNumber(parts[k]) { case Some(v) => v < bound case None => false }
  }

  /** The digit character for `d`. */
  function DigitChar(d: nat): (c: char)
    requires d < 10
    ensures IsDigit(c) && (c as int) - ('0' as int) == d
  {
    (('0' as int) + d) as char
  }

  /** `n` written with exactly two digits, zero-padded. */
  function Pad2(n: nat): (s: string)
    requires n < 100
    ensures |s| == 2 && AllDigits(s)
  {
    [DigitChar(n / 10), DigitChar(n % 10)]
  }

  /** The zero-padded `HH:MM:SS` text of a duration. */
  function Format(h: nat, m: nat, s: nat): (t: string)
    requires h < 100 && m < 100 && s < 100
    ensures |t| == 8 && t[2] == ':' && t[5] == ':'
  {
    Pad2(h) + ([':'] + (Pad2(m) + ([':'] + Pad2(s))))
  }

  /** A duration in seconds. */
  function Seconds(h: nat, m: nat, s: nat): nat
  {
    h * 3600 + m * 60 + s
  }

  lemma ParsePad2(n: nat)
    requires n < 100
    ensures ParseNumber(Pad2(n)) == Some(n)
  {
    TwoDigitsValue(Pad2(n));
  }

  lemma TwoDigitsValue(a: string)
    requires |a| == 2 && AllDigits(a)
    ensures DigitsValue(a) == 10 * ((a[0] as int) - ('0' as int)) + ((a[1] as int) - ('0' as int))
  {
    var a0 := a[..1];
    assert a0[..0] == [];
    assert IsDigit(a0[0]);
    assert DigitsValue(a0) == (a[0] as int) - ('0' as int);
  }

  /** Splitting a formatted time gives back its three padded fields. */
  lemma SplitFormat(h: nat, m: nat, s: nat)
    requires h < 100 && m < 100 && s < 100
    ensures SplitOn(Format(h, m, s), ':') == [Pad2(h), Pad2(m), Pad2(s)]
  {
    assert Format(h, m, s) == Pad2(h) + [':'] + (Pad2(m) + [':'] + Pad2(s));
    SplitOnAppend(Pad2(h), ':', Pad2(m) + [':'] + Pad2(s));
    SplitOnAppend(Pad2(m), ':', Pad2(s));
    SplitOnNoSep(Pad2(h), ':');
    SplitOnNoSep(Pad2(m), ':');
    SplitOnNoSep(Pad2(s), ':');
  }

  /** Every 8-character string with digits around two colons is a formatted time. */
  lemma PaddedIsFormat(t: string)
    requires |t| == 8 && t[2] == ':' && t[5] == ':'
    requires AllDigits(t[..2]) && AllDigits(t[3..5]) && AllDigits(t[6..])
    ensures DigitsValue(t[..2]) < 100 && DigitsValue(t[3..5]) < 100 && DigitsValue(t[6..]) < 100
    ensures t == Format(DigitsValue(t[..2]), DigitsValue(t[3..5]), DigitsValue(t[6..]))
  {
    forall a: string | |a| == 2 && AllDigits(a)
      ensures DigitsValue(a) < 100 && Pad2(DigitsValue(a)) == a
    {
      TwoDigitsValue(a);
      var d0, d1 := (a[0] as int) - ('0' as int), (a[1] as int) - ('0' as int);
      assert (10 * d0 + d1) / 10 == d0 && (10 * d0 + d1) % 10 == d1;
    }
    assert t == t[..2] + ([':'] + (t[3..5] + ([':'] + t[6..])));
  }

  lemma LessDigitChar(a: nat, b: nat)
    requires a < 10 && b < 10
    ensures DigitChar(a) < DigitChar(b) <==> a < b
    ensures DigitChar(a) == DigitChar(b) <==> a == b
  {
  }

  /** Two-digit fields compare as their values. */
  lemma LessPad2(a: nat, b: nat)
    requires a < 100 && b < 100
    ensures Less(Pad2(a), Pad2(b)) <==> a < b
  {
    LessDigitChar(a / 10, b / 10);
    LessDigitChar(a % 10, b % 10);
    var pa, pb := Pad2(a), Pad2(b);
    assert pa[1..] == [pa[1]] && pb[1..] == [pb[1]];
    assert Less([pa[1]], [pb[1]]) <==> pa[1] < pb[1] by {
      assert [pa[1]][1..] == [] && [pb[1]][1..] == [];
    }
    assert Less(pa, pb) <==> a / 10 < b / 10 || (a / 10 == b / 10 && a % 10 < b % 10);
  }

  lemma LessColon(y: string, v: string)
    ensures Less([':'] + y, [':'] + v) <==> Less(y, v)
  {
    assert ([':'] + y)[1..] == y && ([':'] + v)[1..] == v;
  }

  /** For zero-padded times with minutes and seconds below 60, comparing the strings
      ordinally is comparing the durations: the property the total-time sort and the
      fastest-split comparison both depend on. */
  lemma {:induction false} LessFormatIsChronological(h1: nat, m1: nat, s1: nat, h2: nat, m2: nat, s2: nat)
    requires h1 < 100 && h2 < 100 && m1 < 60 && m2 < 60 && s1 < 60 && s2 < 60
    ensures Less(Format(h1, m1, s1), Format(h2, m2, s2)) <==> Seconds(h1, m1, s1) < Seconds(h2, m2, s2)
  {
    var t1, t2 := [':'] + (Pad2(m1) + ([':'] + Pad2(s1))), [':'] + (Pad2(m2) + ([':'] + Pad2(s2)));
    LessConcat(Pad2(h1), t1, Pad2(h2), t2);
    LessColon(Pad2(m1) + ([':'] + Pad2(s1)), Pad2(m2) + ([':'] + Pad2(s2)));
    LessConcat(Pad2(m1), [':'] + Pad2(s1), Pad2(m2), [':'] + Pad2(s2));
    LessColon(Pad2(s1), Pad2(s2));
    LessPad2(h1, h2);
    LessPad2(m1, m2);
    LessPad2(s1, s2);
    assert Pad2(h1) == Pad2(h2) <==> h1 == h2 by {
      LessDigitChar(h1 / 10, h2 / 10);
      LessDigitChar(h1 % 10, h2 % 10);
    }
    assert Pad2(m1) == Pad2(m2) <==> m1 == m2 by {
      LessDigitChar(m1 / 10, m2 / 10);
      LessDigitChar(m1 % 10, m2 % 10);
    }
  }

  /** Without zero padding the string order disagrees with time: 9 hours sorts after
      10 hours. */
  lemma UnpaddedMisorders()
    ensures Less("10:00:00", "9:00:00")
  {
  }
}
