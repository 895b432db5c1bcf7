/** String operations the system relies on: Python's `str.strip()` over a fixed
    whitespace set, Python's ordering of strings (code point by code point),
    sorting a set of strings in that order, and the `{n:05d}` format used in
    waitlist sort keys. */
module Text {

  // ---------------------------------------------------------------------------
  // Whitespace and strip()
  // ---------------------------------------------------------------------------

  /** The whitespace characters `strip()` removes in this model: space, tab,
      line feed and carriage return. */
  predicate IsWhitespace(c: char) {
    c == ' ' || c == '\t' || c == '\n' || c == '\r'
  }

  /** Every character of `s` is whitespace (vacuously true of ""). */
  predicate IsBlank(s: string) {
    forall i :: 0 <= i < |s| ==> IsWhitespace(s[i])
  }

  function TrimStart(s: string): (r: string)
    ensures |r| <= |s| && r == s[|s| - |r|..]
    ensures r == "" || !IsWhitespace(r[0])
    ensures IsBlank(s[..|s| - |r|])
  {
    if |s| > 0 && IsWhitespace(s[0]) then
      var r := TrimStart(s[1..]);
      assert s[..|s| - |r|] == [s[0]] + s[1..][..|s[1..]| - |r|];
      r
    else
      s
  }

  function TrimEnd(s: string): (r: string)
    ensures |r| <= |s| && r == s[..|r|]
    ensures r == "" || !IsWhitespace(r[|r| - 1])
    ensures IsBlank(s[|r|..])
  {
    if |s| > 0 && IsWhitespace(s[|s| - 1]) then
      var r := TrimEnd(s[..|s| - 1]);
      assert s[|r|..] == s[..|s| - 1][|r|..] + [s[|s| - 1]];
      r
    else
      s
  }

  /** Python's `s.strip()` with the whitespace set above. */
  function Strip(s: string): string {
    TrimEnd(TrimStart(s))
  }

  /** The guard `not s or not s.strip()`: the string is empty once stripped
      exactly when it consists of whitespace only. */
  lemma StripEmptyIffBlank(s: string)
    ensures (s == "" || Strip(s) == "") <==> IsBlank(s)
  {
    var t := TrimStart(s);
    if Strip(s) == "" {
      assert IsBlank(t[0..]);
      assert s == s[..|s| - |t|] + t;
    }
  }

  // ---------------------------------------------------------------------------
  // Python's string order
  // ---------------------------------------------------------------------------

  /** `a < b` on Python strings: lexicographic by code point, a proper prefix
      sorting first. */
  predicate Less(a: string, b: string)
    decreases |a|
  {
    |b| > 0 && (|a| == 0 || a[0] < b[0] || (a[0] == b[0] && Less(a[1..], b[1..])))
  }

  lemma {:induction false} LessIrreflexive(a: string)
    ensures !Less(a, a)
    decreases |a|
  {
    if |a| > 0 {
      LessIrreflexive(a[1..]);
    }
  }

  lemma {:induction false} LessAsymmetric(a: string, b: string)
    ensures Less(a, b) ==> !Less(b, a)
    decreases |a|
  {
    if |a| > 0 && |b| > 0 && a[0] == b[0] {
      LessAsymmetric(a[1..], b[1..]);
    }
  }

  lemma {:induction false} LessTransitive(a: string, b: string, c: string)
    requires Less(a, b) && Less(b, c)
    ensures Less(a, c)
    decreases |a|
  {
    if |a| > 0 && a[0] == b[0] && b[0] == c[0] {
      LessTransitive(a[1..], b[1..], c[1..]);
    }
  }

  lemma {:induction false} LessTotal(a: string, b: string)
    ensures a == b || Less(a, b) || Less(b, a)
    decreases |a|
  {
    if |a| > 0 && |b| > 0 && a[0] == b[0] {
      LessTotal(a[1..], b[1..]);
      if a[1..] == b[1..] {
        assert a == [a[0]] + a[1..] && b == [b[0]] + b[1..];
      }
    }
  }

  /** The order ignores a common prefix. */
  lemma {:induction false} LessCommonPrefix(p: string, a: string, b: string)
    ensures Less(p + a, p + b) <==> Less(a, b)
    decreases |p|
  {
    if |p| > 0 {
      assert (p + a)[1..] == p[1..] + a;
      assert (p + b)[1..] == p[1..] + b;
      LessCommonPrefix(p[1..], a, b);
    } else {
      assert p + a == a && p + b == b;
    }
  }

  /** Between strings of equal length the first difference decides, whatever
      follows. */
  lemma {:induction false} LessEqualLengthExtend(a: string, b: string, x: string, y: string)
    requires |a| == |b| && Less(a, b)
    ensures Less(a + x, b + y)
    decreases |a|
  {
    if a[0] == b[0] {
      assert (a + x)[1..] == a[1..] + x;
      assert (b + y)[1..] == b[1..] + y;
      LessEqualLengthExtend(a[1..], b[1..], x, y);
    }
  }

  // ---------------------------------------------------------------------------
  // Sorting a set of strings
  // ---------------------------------------------------------------------------

  /** No element occurs twice. */
  ghost predicate Distinct(s: seq<string>) {
    forall i, j :: 0 <= i < j < |s| ==> s[i] != s[j]
  }

  ghost predicate StrictlySorted(s: seq<string>) {
    forall i, j :: 0 <= i < j < |s| ==> Less(s[i], s[j])
  }

  lemma LeastExists(s: set<string>)
    requires s != {}
    ensures exists m :: m in s && forall x :: x in s && x != m ==> Less(m, x)
  {
    var m := LeastWitness(s);
  }

  lemma {:induction false} LeastWitness(s: set<string>) returns (m: string)
    requires s != {}
    ensures m in s && forall x :: x in s && x != m ==> Less(m, x)
    decreases |s|
  {
    var y :| y in s;
    if s == {y} {
      m := y;
    } else {
      var rest := s - {y};
      var least := LeastWitness(rest);
      LessTotal(y, least);
      if Less(y, least) {
        forall x | x in s && x != y
          ensures Less(y, x)
        {
          if x != least {
            LessTransitive(y, least, x);
          }
        }
        m := y;
      } else {
        m := least;
      }
    }
  }

  /** The least element of a non-empty set of strings. */
  function Least(s: set<string>): (m: string)
    requires s != {}
    ensures m in s && forall x :: x in s && x != m ==> Less(m, x)
  {
    LeastExists(s);
    LessAsymmetricAll();
    var m :| m in s && forall x :: x in s && x != m ==> Less(m, x); m
  }

  lemma LessAsymmetricAll()
    ensures forall a, b :: Less(a, b) ==> !Less(b, a)
  {
    forall a, b ensures Less(a, b) ==> !Less(b, a) {
      LessAsymmetric(a, b);
    }
  }

  /** The elements of `s` in ascending order: what sorting a query result by
      its sort key yields. */
  function SortStrings(s: set<string>): (r: seq<string>)
    ensures |r| == |s|
    ensures forall x :: x in r <==> x in s
    ensures StrictlySorted(r)
    decreases |s|
  {
    if s == {} then []
    else
      var m := Least(s);
      [m] + SortStrings(s - {m})
  }

  /** A set has only one strictly ascending enumeration. */
  lemma {:induction false} SortedUnique(a: seq<string>, b: seq<string>)
    requires StrictlySorted(a) && StrictlySorted(b)
    requires forall x :: x in a <==> x in b
    ensures a == b
    decreases |a|
  {
    if a != [] {
      assert a[0] in a;
      assert b != [];
      assert b[0] in b;
      var k :| 0 <= k < |b| && b[k] == a[0];
      var m :| 0 <= m < |a| && a[m] == b[0];
      if k > 0 {
        assert Less(b[0], a[0]);
        if m > 0 {
          assert Less(a[0], b[0]);
          LessAsymmetric(a[0], b[0]);
        } else {
          LessIrreflexive(a[0]);
        }
        assert false;
      }
      assert a[0] == b[0];
      forall x ensures x in a[1..] <==> x in b[1..] {
        if x in a[1..] {
          var i :| 1 <= i < |a| && a[i] == x;
          LessIrreflexive(x);
          assert x != b[0];
          assert x in b;
        }
        if x in b[1..] {
          var i :| 1 <= i < |b| && b[i] == x;
          LessIrreflexive(x);
          assert x != a[0];
          assert x in a;
        }
      }
      SortedUnique(a[1..], b[1..]);
      assert a == [a[0]] + a[1..];
      assert b == [b[0]] + b[1..];
    } else {
      NoMembersIsEmpty(b);
    }
  }

  /** A sequence is empty exactly when nothing is in it. */
  lemma NoMembersIsEmpty(s: seq<string>)
    ensures s == [] <==> forall x :: x !in s
  {
    if s != [] {
      assert s[0] in s;
    }
  }

  /** Sorting a set that some strictly ascending sequence enumerates gives
      back that sequence. */
  lemma SortStringsOfSorted(a: seq<string>, s: set<string>)
    requires StrictlySorted(a)
    requires forall x :: x in a <==> x in s
    ensures SortStrings(s) == a
  {
    SortedUnique(SortStrings(s), a);
  }

  // ---------------------------------------------------------------------------
  // The format `{n:05d}` for n >= 0
  // ---------------------------------------------------------------------------

  function DigitChar(d: nat): (c: char)
    requires d < 10
    ensures '0' <= c <= '9'
  {
    ('0' as int + d) as char
  }

  /** The decimal representation of `n`, without leading zeros. */
  function Decimal(n: nat): (r: string)
    ensures |r| >= 1
    ensures forall k :: 0 <= k < |r| ==> '0' <= r[k] <= '9'
    decreases n
  {
    if n < 10 then [DigitChar(n)] else Decimal(n / 10) + [DigitChar(n % 10)]
  }

  function Zeros(k: nat): (r: string)
    ensures |r| == k && forall i :: 0 <= i < k ==> r[i] == '0'
  {
    seq(k, _ => '0')
  }

  /** Python's `f'{n:05d}'` for a non-negative `n`: the decimal digits, padded
      on the left with zeros to width 5 and never truncated. */
  function Format05d(n: nat): (r: string)
    ensures |r| >= 5
    ensures forall k :: 0 <= k < |r| ==> '0' <= r[k] <= '9'
  {
    var d := Decimal(n);
    if |d| < 5 then Zeros(5 - |d|) + d else d
  }

  /** The lowest `w` decimal digits of `n`, most significant first. */
  function Digits(n: nat, w: nat): (r: string)
    ensures |r| == w
  {
    if w == 0 then [] else Digits(n / 10, w - 1) + [DigitChar(n % 10)]
  }

  function Pow10(w: nat): (r: nat)
    ensures r >= 1
  {
    if w == 0 then 1 else 10 * Pow10(w - 1)
  }

  lemma {:induction false} DigitsOfZero(w: nat)
    ensures Digits(0, w) == Zeros(w)
  {
    if w > 0 {
      DigitsOfZero(w - 1);
    }
  }

  lemma {:induction false} DecimalLength(n: nat, w: nat)
    requires w >= 1 && n < Pow10(w)
    ensures |Decimal(n)| <= w
    decreases n
  {
    if n >= 10 {
      DecimalLength(n / 10, w - 1);
    }
  }

  lemma {:induction false} PaddedDecimalIsDigits(n: nat, w: nat)
    requires |Decimal(n)| <= w
    ensures Zeros(w - |Decimal(n)|) + Decimal(n) == Digits(n, w)
    decreases n
  {
    if n < 10 {
      DigitsOfZero(w - 1);
      assert Digits(n, w) == Digits(0, w - 1) + [DigitChar(n)];
    } else {
      PaddedDecimalIsDigits(n / 10, w - 1);
      assert Zeros(w - |Decimal(n)|) + Decimal(n)
          == (Zeros((w - 1) - |Decimal(n / 10)|) + Decimal(n / 10)) + [DigitChar(n % 10)];
    }
  }

  /** Below 100000 the format is exactly five digits. */
  lemma Format05dIsFiveDigits(n: nat)
    requires n < 100000
    ensures Format05d(n) == Digits(n, 5)
  {
    assert Pow10(5) == 100000;
    DecimalLength(n, 5);
    PaddedDecimalIsDigits(n, 5);
  }

  /** Fixed-width digit strings sort in numeric order. */
  lemma {:induction false} DigitsOrdered(i: nat, j: nat, w: nat)
    requires i < j < Pow10(w)
    ensures Less(Digits(i, w), Digits(j, w))
    decreases w
  {
    var di, dj := DigitChar(i % 10), DigitChar(j % 10);
    if i / 10 < j / 10 {
      DigitsOrdered(i / 10, j / 10, w - 1);
      LessEqualLengthExtend(Digits(i / 10, w - 1), Digits(j / 10, w - 1), [di], [dj]);
    } else {
      assert i % 10 < j % 10;
      assert Less([di], [dj]);
      LessCommonPrefix(Digits(i / 10, w - 1), [di], [dj]);
    }
  }

  /** Zero-padded positions below 100000 sort in numeric order. */
  lemma Format05dOrdered(i: nat, j: nat)
    requires i < j < 100000
    ensures |Format05d(i)| == |Format05d(j)| == 5
    ensures Less(Format05d(i), Format05d(j))
  {
    Format05dIsFiveDigits(i);
    Format05dIsFiveDigits(j);
    assert Pow10(5) == 100000;
    DigitsOrdered(i, j, 5);
  }

  /** From 100000 on the format grows a sixth digit and the order breaks:
      100000 sorts before 10001. */
  lemma Format05dOrderBreaks()
    ensures Less(Format05d(100000), Format05d(10001))
  {
    assert Decimal(1) == "1";
    assert Decimal(10) == "10";
    assert Decimal(100) == "100";
    assert Decimal(1000) == "1000";
    assert Decimal(10000) == "10000";
    assert Decimal(100000) == "100000";
    assert Decimal(10001) == "10001";
    assert Format05d(100000) == "100000";
    assert Format05d(10001) == "10001";
    LessCommonPrefix("1000", "00", "1");
    assert "100000" == "1000" + "00";
    assert "10001" == "1000" + "1";
  }

  lemma {:induction false} DecimalLengthBelow(n: nat, w: nat)
    requires n >= Pow10(w)
    ensures |Decimal(n)| >= w + 1
    decreases n
  {
    if w > 0 {
      DecimalLengthBelow(n / 10, w - 1);
    }
  }

  lemma {:induction false} DecimalInjective(i: nat, j: nat)
    requires Decimal(i) == Decimal(j)
    ensures i == j
    decreases i
  {
    if i >= 10 || j >= 10 {
      DecimalLengthBelow(i, 1);
      DecimalLengthBelow(j, 1);
      var di, dj := Decimal(i), Decimal(j);
      assert di[..|di| - 1] == Decimal(i / 10);
      assert dj[..|dj| - 1] == Decimal(j / 10);
      DecimalInjective(i / 10, j / 10);
      assert di[|di| - 1] == DigitChar(i % 10);
      assert dj[|dj| - 1] == DigitChar(j % 10);
    }
  }

  /** Distinct positions never share a formatted position, below 100000 or
      not. */
  lemma Format05dInjective(i: nat, j: nat)
    requires Format05d(i) == Format05d(j)
    ensures i == j
  {
    assert Pow10(5) == 100000;
    if i < 100000 && j < 100000 {
      Format05dIsFiveDigits(i);
      Format05dIsFiveDigits(j);
      if i < j {
        DigitsOrdered(i, j, 5);
        LessIrreflexive(Format05d(i));
      } else if j < i {
        DigitsOrdered(j, i, 5);
        LessIrreflexive(Format05d(i));
      }
    } else {
      DecimalLengthBelow(if i >= 100000 then i else j, 5);
      DecimalInjective(i, j);
    }
  }
}
