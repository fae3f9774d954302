/** The few JavaScript built-ins the migration engine leans on, with the
    semantics it relies on: `String.prototype.includes`, `split('.')`,
    `join('.')`, `parseInt` on decimal digit strings, and `Math.max` with
    its `-Infinity` and `NaN` results. */
module Js {

  datatype Option<+T> = None | Some(value: T)

  // ---------------------------------------------------------------------
  // Strings
  // ---------------------------------------------------------------------

  /** `s.includes(pat)`: `pat` occurs somewhere in `s`. */
  predicate Includes(s: string, pat: string)
    decreases |s|
  {
    pat <= s || (|s| > 0 && Includes(s[1..], pat))
  }

  /** Number of occurrences of `c` in `s`. */
  function Count(s: string, c: char): nat
  {
    if s == [] then 0 else (if s[0] == c then 1 else 0) + Count(s[1..], c)
  }

  lemma {:induction false} CountConcat(a: string, b: string, c: char)
    ensures Count(a + b, c) == Count(a, c) + Count(b, c)
  {
    if a == [] {
      assert a + b == b;
    } else {
      assert (a + b)[1..] == a[1..] + b;
      CountConcat(a[1..], b, c);
    }
  }

  /** A string that contains `pat` contains at least as many `c`s as `pat` does. */
  lemma {:induction false} CountIncludes(s: string, pat: string, c: char)
    requires Includes(s, pat)
    ensures Count(s, c) >= Count(pat, c)
    decreases |s|
  {
    if pat <= s {
      var rest := s[|pat|..];
      assert s == pat + rest;
      CountConcat(pat, rest, c);
    } else {
      CountIncludes(s[1..], pat, c);
    }
  }

  predicate EndsWith(s: string, suffix: string)
  {
    |suffix| <= |s| && s[|s| - |suffix|..] == suffix
  }

  /** `path.basename(name, suffix)` for a bare directory entry: the suffix
      is removed when the name ends with it. */
  function StripSuffix(name: string, suffix: string): (r: string)
    ensures EndsWith(name, suffix) ==> r + suffix == name
    ensures !EndsWith(name, suffix) ==> r == name
  {
    if EndsWith(name, suffix) then name[..|name| - |suffix|] else name
  }

  /** `s.split(sep)` for a one-character separator: the empty string gives
      `[""]`, and every separator starts a new (possibly empty) part. */
  function Split(s: string, sep: char): (parts: seq<string>)
    ensures |parts| == Count(s, sep) + 1
    ensures forall i :: 0 <= i < |parts| ==> sep !in parts[i]
    decreases |s|
  {
    if s == [] then [""]
    else
      var rest := Split(s[1..], sep);
      if s[0] == sep then [""] + rest
      else [[s[0]] + rest[0]] + rest[1..]
  }

  /** `parts.join(sep)`: the empty list gives the empty string. */
  function Join(parts: seq<string>, sep: char): string
  {
    if |parts| == 0 then ""
    else if |parts| == 1 then parts[0]
    else parts[0] + [sep] + Join(parts[1..], sep)
  }

  /** Joining the parts of a split gives back the original string. */
  lemma {:induction false} JoinSplit(s: string, sep: char)
    ensures Join(Split(s, sep), sep) == s
    decreases |s|
  {
    if s != [] {
      var rest := Split(s[1..], sep);
      JoinSplit(s[1..], sep);
      if s[0] == sep {
        assert ([""] + rest)[1..] == rest;
      } else if |rest| > 1 {
        var parts := [[s[0]] + rest[0]] + rest[1..];
        assert parts[1..] == rest[1..];
        assert Join(rest, sep) == rest[0] + [sep] + Join(rest[1..], sep);
      }
    }
  }

  lemma {:induction false} SplitPlain(a: string, sep: char)
    requires sep !in a
    ensures Split(a, sep) == [a]
    decreases |a|
  {
    if a != [] {
      SplitPlain(a[1..], sep);
      assert [a[0]] + a[1..] == a;
    }
  }

  lemma {:induction false} SplitAfterPlain(a: string, sep: char, b: string)
    requires sep !in a
    ensures Split(a + [sep] + b, sep) == [a] + Split(b, sep)
    decreases |a|
  {
    var s := a + [sep] + b;
    if a == [] {
      assert s[1..] == b;
    } else {
      assert s[1..] == a[1..] + [sep] + b;
      SplitAfterPlain(a[1..], sep, b);
      assert [a[0]] + a[1..] == a;
    }
  }

  /** Splitting a join of separator-free parts gives back the parts. */
  lemma {:induction false} SplitJoin(parts: seq<string>, sep: char)
    requires |parts| >= 1
    requires forall i :: 0 <= i < |parts| ==> sep !in parts[i]
    ensures Split(Join(parts, sep), sep) == parts
    decreases |parts|
  {
    if |parts| == 1 {
      SplitPlain(parts[0], sep);
    } else {
      SplitJoin(parts[1..], sep);
      SplitAfterPlain(parts[0], sep, Join(parts[1..], sep));
      assert [parts[0]] + parts[1..] == parts;
    }
  }

  // ---------------------------------------------------------------------
  // parseInt on decimal digit strings
  // ---------------------------------------------------------------------

  predicate IsDigit(ch: char) { '0' <= ch <= '9' }

  predicate IsDigits(s: string)
  {
    forall i :: 0 <= i < |s| ==> IsDigit(s[i])
  }

  /** Decimal value of a digit string, most significant digit first. */
  function DigitsValue(s: string): nat
    requires IsDigits(s)
    decreases |s|
  {
    if s == [] then 0 else DigitsValue(s[..|s| - 1]) * 10 + (s[|s| - 1] as int - '0' as int)
  }

  /** `parseInt(s)` for a string that is a plain run of decimal digits;
      anything else reads as `NaN` (None). */
  function ParseInt(s: string): (n: Option<nat>)
    ensures n.Some? <==> s != [] && IsDigits(s)
  {
    if s != [] && IsDigits(s) then Some(DigitsValue(s)) else None
  }

  /** Zero padding does not change the value: "002" and "2" are one version. */
  lemma {:induction false} LeadingZero(s: string)
    requires IsDigits(s)
    ensures IsDigits("0" + s) && DigitsValue("0" + s) == DigitsValue(s)
    decreases |s|
  {
    var z := "0" + s;
    assert IsDigits(z) by {
      forall i | 0 <= i < |z| ensures IsDigit(z[i]) {
        if i > 0 { assert z[i] == s[i - 1]; }
      }
    }
    if s != [] {
      var init := s[..|s| - 1];
      LeadingZero(init);
      assert z[..|z| - 1] == "0" + init;
    }
  }

  // ---------------------------------------------------------------------
  // Numbers as Math.max and the comparison operators see them
  // ---------------------------------------------------------------------

  /** A JavaScript number as far as the engine can produce one here. */
  datatype Number = NegInfinity | Finite(n: int) | NaN

  /** `m` is the largest element of `s`. */
  predicate IsMaxOf(m: int, s: set<int>)
  {
    m in s && forall x :: x in s ==> x <= m
  }

  /** A set is empty or has an element (set extensionality, stated so that
      the element can be chosen with `:|`). */
  lemma EmptyOrElement<T>(s: set<T>)
    ensures s == {} || exists y :: y in s
  {
    if forall y :: y !in s {
      assert s == {};
    }
  }

  /** Some element of a non-empty set. */
  lemma Pick<T>(s: set<T>) returns (y: T)
    requires s != {}
    ensures y in s
  {
    EmptyOrElement(s);
    y :| y in s;
  }

  lemma {:induction false} MaxExists(s: set<int>)
    requires s != {}
    ensures exists m :: IsMaxOf(m, s)
    decreases |s|
  {
    var y := Pick(s);
    if s == {y} {
      assert IsMaxOf(y, s);
    } else {
      var rest := s - {y};
      MaxExists(rest);
      var m :| IsMaxOf(m, rest);
      var top := if y > m then y else m;
      forall x | x in s ensures x <= top {
        if x != y { assert x in rest; }
      }
      assert IsMaxOf(top, s);
    }
  }

  /** The largest element of a non-empty finite set. */
  function MaxOf(s: set<int>): (m: int)
    requires s != {}
    ensures IsMaxOf(m, s)
  {
    MaxExists(s);
    var m :| IsMaxOf(m, s); m
  }

  /** `Math.max(...xs)` where `None` stands for `NaN`: `-Infinity` for no
      arguments, `NaN` as soon as one argument is `NaN`, the maximum otherwise. */
  function MathMax(xs: set<Option<int>>): (r: Number)
    ensures xs == {} ==> r == NegInfinity
    ensures None in xs ==> r == NaN
    ensures xs != {} && None !in xs ==>
              r.Finite? && Some(r.n) in xs && forall x :: x in xs ==> x.Some? && x.value <= r.n
  {
    if None in xs then NaN
    else if xs == {} then NegInfinity
    else
      var values := set x | x in xs :: x.value;
      EmptyOrElement(xs);
      var some :| some in xs;
      assert some.value in values;
      var m := MaxOf(values);
      assert forall x :: x in xs ==> x.value in values;
      var w :| w in xs && w.value == m;
      assert w == Some(m);
      Finite(m)
  }

  /** `a < b` for a number `a` and an integer `b`. */
  predicate LessThan(a: Number, b: int)
  {
    a.NegInfinity? || (a.Finite? && a.n < b)
  }

  /** `a === b` for a number `a` and an integer `b`. */
  predicate StrictEquals(a: Number, b: int)
  {
    a.Finite? && a.n == b
  }

  /** `a <= b` for an integer `a` and a number `b`. */
  predicate AtMost(a: int, b: Number)
  {
    b.Finite? && a <= b.n
  }
}
