/**
 * The `trim` step applied to each coordinate value before it is used:
 * leading and trailing white space (as `isspace` defines it in the "C"
 * locale) is removed.
 */
module Trimming {

  /** `isspace` in the "C" locale: space, tab, line feed, vertical tab,
      form feed and carriage return. */
  predicate IsSpace(c: char)
  {
    c == ' ' || 9 <= c as int <= 13
  }

  function StripLeft(s: string): string
  {
    if s != [] && IsSpace(s[0]) then StripLeft(s[1..]) else s
  }

  function StripRight(s: string): string
  {
    if s != [] && IsSpace(s[|s| - 1]) then StripRight(s[..|s| - 1]) else s
  }

  /** Reference definition: drop white space from the left, then from the
      right. */
  function Trimmed(s: string): string
  {
    StripRight(StripLeft(s))
  }

  predicate AllSpace(s: string)
  {
    forall k :: 0 <= k < |s| ==> IsSpace(s[k])
  }

  /** Neither end of the string is white space. */
  predicate Unpadded(s: string)
  {
    s == [] || (!IsSpace(s[0]) && !IsSpace(s[|s| - 1]))
  }

  lemma {:induction false} StripLeftFrom(s: string, a: nat)
    requires a <= |s| && AllSpace(s[..a])
    requires a == |s| || !IsSpace(s[a])
    ensures StripLeft(s) == s[a..]
    decreases a
  {
    if a > 0 {
      assert IsSpace(s[..a][0]);
      assert s[1..][..a - 1] == s[..a][1..];
      StripLeftFrom(s[1..], a - 1);
      assert s[1..][a - 1..] == s[a..];
    }
  }

  lemma {:induction false} StripRightTo(s: string, b: nat)
    requires b <= |s| && AllSpace(s[b..])
    requires b == 0 || !IsSpace(s[b - 1])
    ensures StripRight(s) == s[..b]
    decreases |s| - b
  {
    if b < |s| {
      assert IsSpace(s[b..][|s| - 1 - b]);
      var init := s[..|s| - 1];
      assert init[b..] == s[b..][..|s| - 1 - b];
      StripRightTo(init, b);
      assert init[..b] == s[..b];
    } else {
      assert s[..b] == s;
    }
  }

  /** The trimmed string is the slice between the maximal white-space
      prefix `s[..a]` and the maximal white-space suffix `s[b..]`. */
  lemma TrimmedSlice(s: string, a: nat, b: nat)
    requires a <= b <= |s|
    requires AllSpace(s[..a]) && AllSpace(s[b..])
    requires a == |s| || !IsSpace(s[a])
    requires b == a || !IsSpace(s[b - 1])
    ensures Trimmed(s) == s[a..b]
  {
    StripLeftFrom(s, a);
    var t := s[a..];
    assert t[b - a..] == s[b..];
    StripRightTo(t, b - a);
    assert t[..b - a] == s[a..b];
  }

  /** The in-place trim: advance `a` over leading white space, move `b`
      back over trailing white space, and take the substring only if one of
      them moved. */
  method Trim(s: string) returns (t: string)
    ensures t == Trimmed(s)
  {
    var a := 0;
    while a < |s| && IsSpace(s[a])
      invariant 0 <= a <= |s|
      invariant AllSpace(s[..a])
    {
      assert s[..a + 1] == s[..a] + [s[a]];
      a := a + 1;
    }
    var b := |s|;
    while b > a && IsSpace(s[b - 1])
      invariant a <= b <= |s|
      invariant AllSpace(s[b..])
    {
      assert s[b - 1..] == [s[b - 1]] + s[b..];
      b := b - 1;
    }
    TrimmedSlice(s, a, b);
    t := s;
    if a != 0 || b != |s| {
      t := s[a..b];
    }
  }

  /** Existence of the two cut points for every string. */
  lemma {:induction false} CutPoints(s: string) returns (a: nat, b: nat)
    ensures a <= b <= |s| && AllSpace(s[..a]) && AllSpace(s[b..])
    ensures a == |s| || !IsSpace(s[a])
    ensures b == a || !IsSpace(s[b - 1])
  {
    a := 0;
    while a < |s| && IsSpace(s[a])
      invariant 0 <= a <= |s| && AllSpace(s[..a])
    {
      assert s[..a + 1] == s[..a] + [s[a]];
      a := a + 1;
    }
    b := |s|;
    while b > a && IsSpace(s[b - 1])
      invariant a <= b <= |s| && AllSpace(s[b..])
    {
      assert s[b - 1..] == [s[b - 1]] + s[b..];
      b := b - 1;
    }
  }

  /** Trimming yields a contiguous substring with only white space cut off
      on either side and no white space left at either end. */
  lemma TrimmedShape(s: string)
    ensures exists a: nat, b: nat ::
      (a <= b <= |s| && Trimmed(s) == s[a..b] && AllSpace(s[..a]) && AllSpace(s[b..]))
    ensures Unpadded(Trimmed(s))
  {
    var a, b := CutPoints(s);
    TrimmedSlice(s, a, b);
  }

  /** Trimming is idempotent. */
  lemma TrimmedIdempotent(s: string)
    ensures Trimmed(Trimmed(s)) == Trimmed(s)
  {
    TrimmedShape(s);
    TrimmedFixed(Trimmed(s));
  }

  /** A string with no white space at either end is left unchanged. */
  lemma TrimmedFixed(s: string)
    requires Unpadded(s)
    ensures Trimmed(s) == s
  {
    TrimmedSlice(s, 0, |s|);
  }

  /** The trimmed value is empty exactly when the input is all white space
      (the empty string included). */
  lemma TrimmedEmpty(s: string)
    ensures Trimmed(s) == [] <==> AllSpace(s)
  {
    var a, b := CutPoints(s);
    TrimmedSlice(s, a, b);
    if AllSpace(s) {
      assert a == |s|;
    }
  }
}
