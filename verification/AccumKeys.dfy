/** The store keys of accumulators and positions, and which of them can clash. */
module AccumKeys {
  const KEY_SEPARATOR: string := "||"
  const ACCUM_PREFIX: string := "accum||acc||"
  const POSITION_PREFIX: string := "accum||pos||"

  function AccumKey(accum: string): string {
    ACCUM_PREFIX + accum
  }

  function PositionPrefix(accum: string): string {
    POSITION_PREFIX + accum + KEY_SEPARATOR
  }

  function PositionKey(accum: string, name: string): string {
    PositionPrefix(accum) + name
  }

  predicate ContainsSeparator(s: string) {
    exists i :: 0 <= i < |s| - 1 && s[i] == '|' && s[i + 1] == '|'
  }

  /** One name is the other with a bar at the end. */
  predicate Neighbours(a: string, b: string) {
    a == b + "|" || b == a + "|"
  }

  /** Equal keys whose first accumulator name is shorter: the longer one has one more bar. */
  lemma ShorterClash(a: string, n: string, b: string, k: string)
    requires a + KEY_SEPARATOR + n == b + KEY_SEPARATOR + k
    requires !ContainsSeparator(b) && |a| < |b|
    ensures b == a + "|" && n == "|" + k
  {
    var s, t := a + KEY_SEPARATOR + n, b + KEY_SEPARATOR + k;
    assert s[|a|] == '|' && s[|a| + 1] == '|';
    assert t[|b|] == '|' && t[|b| + 1] == '|';
    assert b == t[..|b|] == s[..|b|];
    assert a == s[..|a|] == b[..|a|];
    assert forall i | |a| <= i < |b| :: b[i] == s[i];
    if |b| >= |a| + 2 {
      assert false;
    }
    assert b == a + [b[|a|]];
    assert n == s[|a| + 2..] && k == t[|b| + 2..];
    assert n == [s[|a| + 2]] + s[|a| + 3..];
  }

  /**
   Two position keys are equal for equal names, and otherwise exactly when one accumulator name
   is the other with a bar at the end and that bar has moved to the front of the position name.
   */
  lemma PositionKeyClash(a: string, n: string, b: string, k: string)
    requires !ContainsSeparator(a) && !ContainsSeparator(b)
    ensures PositionKey(a, n) == PositionKey(b, k) <==>
            (a == b && n == k) || (b == a + "|" && n == "|" + k) || (a == b + "|" && k == "|" + n)
  {
    var s, t := a + KEY_SEPARATOR + n, b + KEY_SEPARATOR + k;
    assert PositionKey(a, n) == POSITION_PREFIX + s && PositionKey(b, k) == POSITION_PREFIX + t;
    if b == a + "|" && n == "|" + k {
      assert s == t;
    }
    if a == b + "|" && k == "|" + n {
      assert s == t;
    }
    if PositionKey(a, n) == PositionKey(b, k) {
      assert s == (POSITION_PREFIX + s)[|POSITION_PREFIX|..] == (POSITION_PREFIX + t)[|POSITION_PREFIX|..] == t;
      if |a| < |b| {
        ShorterClash(a, n, b, k);
      } else if |b| < |a| {
        ShorterClash(b, k, a, n);
      } else {
        assert a == s[..|a|] == t[..|b|] == b;
        assert n == s[|a| + 2..] == t[|b| + 2..] == k;
      }
    }
  }

  /** Accumulators and positions never share a key. */
  lemma KindsApart(a: string, b: string, n: string)
    ensures AccumKey(a) != PositionKey(b, n)
  {
    assert AccumKey(a)[7] == 'a' && PositionKey(b, n)[7] == 'p';
  }

  /** The check on accumulator names does not rule the clash out. */
  lemma BarClash()
    ensures !ContainsSeparator("a") && !ContainsSeparator("a|")
    ensures PositionKey("a", "|x") == PositionKey("a|", "x")
  {
    PositionKeyClash("a", "|x", "a|", "x");
    assert "a" + "|" == "a|" && "|" + "x" == "|x";
  }
}
