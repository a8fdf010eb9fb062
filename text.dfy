/**
 * String helpers the graph IR relies on: the decimal rendering that
 * std::to_string gives a node index, the substring test behind
 * std::string::find, and the delimiter join used when a node is rendered.
 */
module Text {

  /** The decimal digit character for `d`. */
  function DigitChar(d: nat): (c: char)
    requires d < 10
    ensures '0' <= c <= '9'
    ensures DigitValue(c) == d
  {
    (48 + d) as char
  }

  predicate IsDigit(c: char) {
    '0' <= c <= '9'
  }

  /** The value of a digit character. */
  function DigitValue(c: char): int {
    c as int - '0' as int
  }

  /** The number a digit string denotes, read most significant digit first. */
  function DigitsValue(s: string): int
  {
    if |s| == 0 then 0 else 10 * DigitsValue(s[..|s| - 1]) + DigitValue(s[|s| - 1])
  }

  /**
   * Decimal rendering of a natural number, most significant digit first, as
   * std::to_string gives it: the digits denote `n` and there is no leading zero.
   */
  function NatToString(n: nat): (s: string)
    ensures |s| >= 1
    ensures forall k :: 0 <= k < |s| ==> IsDigit(s[k])
    ensures DigitsValue(s) == n
    ensures n >= 10 ==> s[0] != '0'
    ensures n < 10 <==> |s| == 1
    decreases n
  {
    if n < 10 then [DigitChar(n)]
    else
      var prefix := NatToString(n / 10);
      var s := prefix + [DigitChar(n % 10)];
      assert s[..|s| - 1] == prefix && s[0] == prefix[0];
      s
  }

  /** Distinct numbers render to distinct strings. */
  lemma {:induction false} NatToStringInjective(a: nat, b: nat)
    requires NatToString(a) == NatToString(b)
    ensures a == b
    decreases a
  {
    if a >= 10 && b >= 10 {
      var sa, sb := NatToString(a / 10), NatToString(b / 10);
      assert NatToString(a) == sa + [DigitChar(a % 10)];
      assert NatToString(b) == sb + [DigitChar(b % 10)];
      assert |sa| == |sb|;
      assert sa == NatToString(a)[..|sa|] == NatToString(b)[..|sb|] == sb;
      assert DigitChar(a % 10) == NatToString(a)[|sa|] == DigitChar(b % 10);
      NatToStringInjective(a / 10, b / 10);
    }
  }

  /** `sub` occurs somewhere in `s`, i.e. `s.find(sub) != npos`. */
  predicate Contains(s: string, sub: string)
    decreases |s|
  {
    sub <= s || (|s| > 0 && Contains(s[1..], sub))
  }

  /** `sub` occurs in `s` starting at position `k`. */
  predicate OccursAt(s: string, sub: string, k: int) {
    0 <= k <= |s| - |sub| && sub == s[k..k + |sub|]
  }

  /** `Contains` agrees with the positional definition of an occurrence. */
  lemma {:induction false} ContainsAt(s: string, sub: string)
    ensures Contains(s, sub) <==> exists k :: OccursAt(s, sub, k)
    decreases |s|
  {
    if sub <= s {
      assert OccursAt(s, sub, 0);
    } else if |s| > 0 {
      ContainsAt(s[1..], sub);
      if k :| OccursAt(s, sub, k) {
        assert k != 0;
        assert OccursAt(s[1..], sub, k - 1);
      }
      if k :| OccursAt(s[1..], sub, k) {
        assert OccursAt(s, sub, k + 1);
      }
    } else {
      assert |sub| > |s|;
    }
  }

  /** A string that lacks the first character of `sub` cannot contain it. */
  lemma {:induction false} MissingFirstCharNotContains(s: string, sub: string)
    requires |sub| > 0 && sub[0] !in s
    ensures !Contains(s, sub)
    decreases |s|
  {
    if |s| > 0 {
      assert s[0] in s;
      assert forall c :: c in s[1..] ==> c in s;
      MissingFirstCharNotContains(s[1..], sub);
    }
  }

  /**
   * `vec` joined with `delimiter` between consecutive elements: the empty
   * vector gives "", one element gives itself.
   */
  function Join(vec: seq<string>, delimiter: string): (r: string)
    ensures |vec| == 0 ==> r == ""
    ensures |vec| >= 1 ==> vec[0] <= r
  {
    if |vec| == 0 then ""
    else if |vec| == 1 then vec[0]
    else vec[0] + delimiter + Join(vec[1..], delimiter)
  }

  /** Appending one element adds exactly one delimiter, before it. */
  lemma {:induction false} JoinSnoc(vec: seq<string>, x: string, delimiter: string)
    requires |vec| >= 1
    ensures Join(vec + [x], delimiter) == Join(vec, delimiter) + delimiter + x
    decreases |vec|
  {
    if |vec| == 1 {
      assert vec + [x] == [vec[0], x];
    } else {
      assert (vec + [x])[1..] == vec[1..] + [x];
      JoinSnoc(vec[1..], x, delimiter);
    }
  }

  /** Joining a concatenation puts exactly one delimiter at the seam. */
  lemma {:induction false} JoinAppend(a: seq<string>, b: seq<string>, delimiter: string)
    requires |a| >= 1 && |b| >= 1
    ensures Join(a + b, delimiter) == Join(a, delimiter) + delimiter + Join(b, delimiter)
    decreases |a|
  {
    if |a| == 1 {
      assert (a + b)[1..] == b;
      assert (a + b)[0] == a[0];
    } else {
      assert (a + b)[1..] == a[1..] + b;
      JoinAppend(a[1..], b, delimiter);
    }
  }

  /** Total length of the elements of `vec`. */
  function TotalLength(vec: seq<string>): nat
  {
    if |vec| == 0 then 0 else |vec[0]| + TotalLength(vec[1..])
  }

  /** k >= 1 elements carry exactly k - 1 delimiters; nothing else is added. */
  lemma {:induction false} JoinLength(vec: seq<string>, delimiter: string)
    ensures |Join(vec, delimiter)| == TotalLength(vec) + (if |vec| == 0 then 0 else (|vec| - 1) * |delimiter|)
    decreases |vec|
  {
    if |vec| > 1 {
      JoinLength(vec[1..], delimiter);
      assert TotalLength(vec[1..][1..]) == TotalLength(vec[2..]);
    }
  }

  /** The joined text ends with the last element: there is no trailing delimiter. */
  lemma {:induction false} JoinEndsWithLast(vec: seq<string>, delimiter: string)
    requires |vec| >= 1
    ensures var j := Join(vec, delimiter); var last := vec[|vec| - 1];
      |last| <= |j| && j[|j| - |last|..] == last
  {
    if |vec| > 1 {
      var init := vec[..|vec| - 1];
      assert vec == init + [vec[|vec| - 1]];
      JoinSnoc(init, vec[|vec| - 1], delimiter);
    }
  }

  /** The accumulator loop of the join: element, then a delimiter unless it is the last. */
  method JoinStrings(vec: seq<string>, delimiter: string) returns (s: string)
    ensures s == Join(vec, delimiter)
  {
    s := "";
    var i := 0;
    while i < |vec|
      invariant 0 <= i <= |vec|
      invariant i == 0 ==> s == ""
      invariant 0 < i < |vec| ==> s == Join(vec[..i], delimiter) + delimiter
      invariant 0 < i == |vec| ==> s == Join(vec, delimiter)
    {
      ghost var joined := s + vec[i];
      if i == 0 {
        assert vec[..1] == [vec[0]];
      } else {
        assert vec[..i + 1] == vec[..i] + [vec[i]];
        JoinSnoc(vec[..i], vec[i], delimiter);
      }
      assert joined == Join(vec[..i + 1], delimiter);
      s := s + vec[i];
      if i < |vec| - 1 {
        s := s + delimiter;
      } else {
        assert vec[..i + 1] == vec;
      }
      i := i + 1;
    }
  }
}
