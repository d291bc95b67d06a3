/**
 * String helpers the matching engine relies on: JavaScript's `split('.')`,
 * `toLowerCase()` and the decimal rendering of integers used by `'' + x`.
 */
module Strings {

  /** The separator of dotted field paths such as `callee.object.name`. */
  const Dot: char := '.'

  /** `s.split('.')`: the pieces between dots; always at least one piece. */
  function Split(s: string): (r: seq<string>)
    ensures |r| >= 1
    ensures forall i, j :: 0 <= i < |r| && 0 <= j < |r[i]| ==> r[i][j] != Dot
    decreases |s|
  {
    if |s| == 0 then [""]
    else
      var rest := Split(s[1..]);
      if s[0] == Dot then [""] + rest
      else [[s[0]] + rest[0]] + rest[1..]
  }

  /** The inverse of `Split`: the pieces glued back together with dots. */
  function Join(parts: seq<string>): string
    requires |parts| >= 1
    decreases |parts|
  {
    if |parts| == 1 then parts[0] else parts[0] + [Dot] + Join(parts[1..])
  }

  /**
   * Number of dots in `s`.  It serves only to state `SplitLength`: a dotted
   * path has one more segment than dots.
   */
  function DotCount(s: string): nat
  {
    if |s| == 0 then 0 else (if s[0] == Dot then 1 else 0) + DotCount(s[1..])
  }

  lemma {:induction false} SplitLength(s: string)
    ensures |Split(s)| == DotCount(s) + 1
    decreases |s|
  {
    if |s| > 0 { SplitLength(s[1..]); }
  }

  lemma {:induction false} JoinSplit(s: string)
    ensures Join(Split(s)) == s
    decreases |s|
  {
    if |s| > 0 {
      var rest := Split(s[1..]);
      JoinSplit(s[1..]);
      if s[0] == Dot {
        assert Split(s) == [""] + rest;
        assert Split(s)[1..] == rest;
      } else {
        var r := Split(s);
        assert r == [[s[0]] + rest[0]] + rest[1..];
        if |rest| == 1 {
          assert Join(r) == [s[0]] + rest[0];
        } else {
          assert r[1..] == rest[1..];
          assert Join(r) == [s[0]] + rest[0] + [Dot] + Join(rest[1..]);
          assert Join(rest) == rest[0] + [Dot] + Join(rest[1..]);
        }
      }
    }
  }

  /** No piece of a path holds a dot. */
  ghost predicate DotFree(parts: seq<string>)
  {
    forall i, j :: 0 <= i < |parts| && 0 <= j < |parts[i]| ==> parts[i][j] != Dot
  }

  lemma {:induction false} SplitOfPieceWithoutDot(p: string)
    requires forall j :: 0 <= j < |p| ==> p[j] != Dot
    ensures Split(p) == [p]
    decreases |p|
  {
    if |p| > 0 {
      SplitOfPieceWithoutDot(p[1..]);
      assert [p[0]] + p[1..] == p;
    }
  }

  lemma {:induction false} SplitPrefix(p: string, tail: string)
    requires forall j :: 0 <= j < |p| ==> p[j] != Dot
    ensures Split(p + tail)[0] == p + Split(tail)[0]
    ensures Split(p + tail)[1..] == Split(tail)[1..]
    decreases |p|
  {
    if |p| > 0 {
      var s := p + tail;
      assert s[0] == p[0] && s[1..] == p[1..] + tail;
      SplitPrefix(p[1..], tail);
      var rest := Split(s[1..]);
      assert rest == Split(p[1..] + tail);
      assert Split(s) == [[p[0]] + rest[0]] + rest[1..];
      assert Split(s)[0] == [p[0]] + rest[0];
      assert Split(s)[1..] == rest[1..];
      assert p == [p[0]] + p[1..];
      assert [p[0]] + (p[1..] + Split(tail)[0]) == p + Split(tail)[0];
    } else {
      assert p + tail == tail;
    }
  }

  /** Two dot-free names joined by a dot split back into the two names. */
  lemma SplitTwo(a: string, b: string)
    requires forall j :: 0 <= j < |a| ==> a[j] != Dot
    requires forall j :: 0 <= j < |b| ==> b[j] != Dot
    ensures Split(a + [Dot] + b) == [a, b]
  {
    var tail := [Dot] + b;
    assert a + [Dot] + b == a + tail;
    SplitPrefix(a, tail);
    assert tail[1..] == b;
    SplitOfPieceWithoutDot(b);
    assert Split(tail) == [""] + [b];
    assert a + "" == a;
  }

  lemma {:induction false} SplitJoin(parts: seq<string>)
    requires |parts| >= 1 && DotFree(parts)
    ensures Split(Join(parts)) == parts
    decreases |parts|
  {
    if |parts| == 1 {
      SplitOfPieceWithoutDot(parts[0]);
    } else {
      var tail := [Dot] + Join(parts[1..]);
      assert Join(parts) == parts[0] + tail;
      SplitPrefix(parts[0], tail);
      SplitJoin(parts[1..]);
      assert tail[1..] == Join(parts[1..]);
      assert Split(tail) == [""] + Split(Join(parts[1..]));
      var r := Split(Join(parts));
      assert r[0] == parts[0] + "" == parts[0];
      assert r[1..] == parts[1..];
      assert r == [r[0]] + r[1..];
    }
  }

  /** ASCII case folding of one character, as `toLowerCase` does for A-Z. */
  function LowerChar(c: char): char
  {
    if 'A' <= c <= 'Z' then (c as int - 'A' as int + 'a' as int) as char else c
  }

  /** `s.toLowerCase()` restricted to ASCII letters. */
  function LowerCase(s: string): (r: string)
    ensures |r| == |s|
    ensures forall i :: 0 <= i < |s| ==> r[i] == LowerChar(s[i])
  {
    if |s| == 0 then "" else [LowerChar(s[0])] + LowerCase(s[1..])
  }

  lemma LowerCaseIdempotent(s: string)
    ensures LowerCase(LowerCase(s)) == LowerCase(s)
  {
    var once := LowerCase(s);
    assert forall i :: 0 <= i < |s| ==> LowerCase(once)[i] == once[i];
  }

  /** Same letters up to the case of ASCII letters. */
  predicate EqualIgnoringCase(a: string, b: string)
  {
    LowerCase(a) == LowerCase(b)
  }

  /** The digit character of a value below ten. */
  function DigitChar(d: nat): char
    requires d < 10
  {
    ('0' as int + d) as char
  }

  /** Decimal digits of a natural number, most significant first. */
  function Digits(n: nat): (r: string)
    ensures |r| >= 1
    ensures forall i :: 0 <= i < |r| ==> '0' <= r[i] <= '9'
  {
    if n < 10 then [DigitChar(n)] else Digits(n / 10) + [DigitChar(n % 10)]
  }

  /** `'' + n` for an integer-valued JavaScript number. */
  function IntToString(i: int): string
  {
    if i < 0 then "-" + Digits(-i) else Digits(i)
  }

  lemma {:induction false} DigitsInjective(a: nat, b: nat)
    requires Digits(a) == Digits(b)
    ensures a == b
    decreases a
  {
    if a >= 10 && b >= 10 {
      var da, db := Digits(a), Digits(b);
      assert da[|da| - 1] == DigitChar(a % 10);
      assert db[|db| - 1] == DigitChar(b % 10);
      assert Digits(a / 10) == da[..|da| - 1];
      assert Digits(b / 10) == db[..|db| - 1];
      DigitsInjective(a / 10, b / 10);
    }
  }

  /** The rendering starts with a minus sign exactly for negative numbers. */
  lemma IntToStringSign(i: int)
    ensures |IntToString(i)| >= 1
    ensures IntToString(i)[0] == '-' <==> i < 0
  {
    if i >= 0 { assert IntToString(i)[0] == Digits(i)[0]; }
  }

  /** Distinct integers are rendered as distinct strings. */
  lemma IntToStringInjective(a: int, b: int)
    requires IntToString(a) == IntToString(b)
    ensures a == b
  {
    IntToStringSign(a);
    IntToStringSign(b);
    if a < 0 && b < 0 {
      assert Digits(-a) == IntToString(a)[1..];
      assert Digits(-b) == IntToString(b)[1..];
      DigitsInjective(-a, -b);
    } else if 0 <= a && 0 <= b {
      DigitsInjective(a, b);
    }
  }

  /** JavaScript's `<` on two strings: lexicographic order of characters. */
  predicate LexLess(a: string, b: string)
    decreases |a|
  {
    if |a| == 0 then |b| > 0
    else if |b| == 0 then false
    else if a[0] < b[0] then true
    else if a[0] == b[0] then LexLess(a[1..], b[1..])
    else false
  }

  lemma {:induction false} LexLessTrichotomy(a: string, b: string)
    ensures a == b || LexLess(a, b) || LexLess(b, a)
    ensures !(LexLess(a, b) && LexLess(b, a))
    ensures !LexLess(a, a)
    decreases |a|
  {
    if |a| > 0 && |b| > 0 && a[0] == b[0] {
      LexLessTrichotomy(a[1..], b[1..]);
      if a[1..] == b[1..] { assert a == [a[0]] + a[1..] && b == [b[0]] + b[1..]; }
    }
    if |a| > 0 { LexLessTrichotomy(a[1..], a[1..]); }
  }

  /** String `<` is transitive; with the trichotomy above it is a strict total order. */
  lemma {:induction false} LexLessTransitive(a: string, b: string, c: string)
    requires LexLess(a, b) && LexLess(b, c)
    ensures LexLess(a, c)
    decreases |a|
  {
    if |a| > 0 && a[0] == b[0] && b[0] == c[0] {
      LexLessTransitive(a[1..], b[1..], c[1..]);
    }
  }
}
