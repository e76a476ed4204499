/**
 * The parts of java.lang that the checkout helpers rely on: null references,
 * 32-bit `int` arithmetic, and the String methods `trim`, `toLowerCase`,
 * `contains` and `isEmpty`, all over ASCII.
 */
module JavaLang {

  /** A Java reference that may be null. */
  datatype Nullable<T> = Null | NonNull(value: T)

  /** Java's `int`. */
  type Int32 = x: int | -0x8000_0000 <= x < 0x8000_0000

  /** Two's-complement wrap-around of a mathematical integer into an `int`. */
  function Wrap32(x: int): (r: Int32)
    ensures (r - x) % 0x1_0000_0000 == 0
    ensures -0x8000_0000 <= x < 0x8000_0000 ==> r == x
  {
    var m := x % 0x1_0000_0000;
    if m < 0x8000_0000 then m else m - 0x1_0000_0000
  }

  // ---------------------------------------------------------------------------
  // String.trim(): strips every character at or below U+0020 at both ends.

  /** A character that `trim()` removes from either end. */
  predicate IsTrimmable(c: char) { c <= ' ' }

  /** A string that `trim()` turns into the empty string. */
  predicate IsBlank(s: string) { forall i :: 0 <= i < |s| ==> IsTrimmable(s[i]) }

  /** `s` without its leading blank characters. */
  function TrimStart(s: string): (r: string)
    ensures |r| <= |s|
    ensures r == [] || !IsTrimmable(r[0])
  {
    if s != [] && IsTrimmable(s[0]) then TrimStart(s[1..]) else s
  }

  /** `s` without its trailing blank characters. */
  function TrimEnd(s: string): (r: string)
    ensures |r| <= |s|
    ensures r == [] || !IsTrimmable(r[|r| - 1])
  {
    if s != [] && IsTrimmable(s[|s| - 1]) then TrimEnd(s[..|s| - 1]) else s
  }

  /** `s.trim()`: the result is an infix of `s`, is empty exactly for blank
      strings, and otherwise starts and ends with a non-blank character. */
  function Trim(s: string): (r: string)
    ensures r == [] <==> IsBlank(s)
    ensures r != [] ==> !IsTrimmable(r[0]) && !IsTrimmable(r[|r| - 1])
    ensures Contains(s, r)
  {
    var t := TrimStart(s);
    var r := TrimEnd(t);
    TrimParts(s, t, r);
    r
  }

  /** What `TrimStart` drops is blank, and what it keeps is a suffix. */
  lemma {:induction false} TrimStartDrops(s: string)
    ensures TrimStart(s) == s[|s| - |TrimStart(s)|..]
    ensures forall i :: 0 <= i < |s| - |TrimStart(s)| ==> IsTrimmable(s[i])
    decreases |s|
  {
    if s != [] && IsTrimmable(s[0]) {
      TrimStartDrops(s[1..]);
      assert s[1..][|s| - 1 - |TrimStart(s)|..] == s[|s| - |TrimStart(s)|..];
      forall i | 0 < i < |s| - |TrimStart(s)| ensures IsTrimmable(s[i]) {
        assert s[i] == s[1..][i - 1];
      }
    }
  }

  /** What `TrimEnd` drops is blank, and what it keeps is a prefix. */
  lemma {:induction false} TrimEndDrops(s: string)
    ensures TrimEnd(s) == s[..|TrimEnd(s)|]
    ensures forall i :: |TrimEnd(s)| <= i < |s| ==> IsTrimmable(s[i])
    decreases |s|
  {
    if s != [] && IsTrimmable(s[|s| - 1]) {
      TrimEndDrops(s[..|s| - 1]);
      forall i | |TrimEnd(s)| <= i < |s| - 1 ensures IsTrimmable(s[i]) {
        assert s[i] == s[..|s| - 1][i];
      }
    }
  }

  lemma TrimParts(s: string, t: string, r: string)
    requires t == TrimStart(s) && r == TrimEnd(t)
    ensures r == [] <==> IsBlank(s)
    ensures r != [] ==> !IsTrimmable(r[0])
    ensures Contains(s, r)
  {
    TrimStartDrops(s);
    TrimEndDrops(t);
    TrimBlank(s, t, r);
    PrefixOfSuffix(s, t, r);
  }

  /** A prefix of a suffix of `s` is an infix of `s`. */
  lemma PrefixOfSuffix(s: string, t: string, r: string)
    requires |t| <= |s| && t == s[|s| - |t|..] && |r| <= |t| && r == t[..|r|]
    ensures Contains(s, r)
  {
    var k := |s| - |t|;
    assert s[k..k + |r|] == r;
    assert InfixAt(s, r, k);
  }

  lemma TrimBlank(s: string, t: string, r: string)
    requires |t| <= |s| && t == s[|s| - |t|..] && forall i :: 0 <= i < |s| - |t| ==> IsTrimmable(s[i])
    requires t == [] || !IsTrimmable(t[0])
    requires |r| <= |t| && forall i :: |r| <= i < |t| ==> IsTrimmable(t[i])
    ensures r == [] <==> IsBlank(s)
  {
  }

  // ---------------------------------------------------------------------------
  // String.toLowerCase(), restricted to ASCII letters.

  function LowerChar(c: char): char
  {
    if 'A' <= c <= 'Z' then (c as int + 32) as char else c
  }

  /** `s.toLowerCase()`: same length, each character lowered on its own. */
  function Lower(s: string): string
  {
    seq(|s|, i requires 0 <= i < |s| => LowerChar(s[i]))
  }

  // ---------------------------------------------------------------------------
  // String.contains().

  predicate InfixAt(s: string, p: string, i: int)
  {
    0 <= i && i + |p| <= |s| && s[i..i + |p|] == p
  }

  /** `s.contains(p)`. */
  predicate Contains(s: string, p: string)
  {
    exists i | 0 <= i <= |s| - |p| :: InfixAt(s, p, i)
  }

  // ---------------------------------------------------------------------------
  // Facts about these operations.

  /** Lowering commutes with concatenation (used to evaluate long literals). */
  lemma {:induction false} LowerAppend(a: string, b: string)
    ensures Lower(a + b) == Lower(a) + Lower(b)
  {
    assert |Lower(a + b)| == |Lower(a) + Lower(b)|;
    forall i | 0 <= i < |a + b| ensures Lower(a + b)[i] == (Lower(a) + Lower(b))[i] {
      if i < |a| { assert (a + b)[i] == a[i]; } else { assert (a + b)[i] == b[i - |a|]; }
    }
  }

  /** Lowering leaves blank characters alone and never produces one. */
  lemma LowerKeepsBlank(s: string)
    ensures IsBlank(Lower(s)) <==> IsBlank(s)
  {
    if IsBlank(Lower(s)) {
      forall i | 0 <= i < |s| ensures IsTrimmable(s[i]) {
        assert Lower(s)[i] == LowerChar(s[i]);
      }
    }
  }

  /** `contains` survives lowering both sides. */
  lemma {:induction false} LowerKeepsContains(s: string, p: string)
    requires Contains(s, p)
    ensures Contains(Lower(s), Lower(p))
  {
    var i :| 0 <= i <= |s| - |p| && InfixAt(s, p, i);
    assert Lower(s)[i..i + |p|] == Lower(p) by {
      forall j | 0 <= j < |p| ensures Lower(s)[i..i + |p|][j] == Lower(p)[j] {
        assert s[i..i + |p|][j] == p[j];
      }
    }
    assert InfixAt(Lower(s), Lower(p), i);
  }

  /** Every string contains the empty string. */
  lemma ContainsEmpty(s: string)
    ensures Contains(s, [])
  {
    assert InfixAt(s, [], 0);
  }

  /** `a + b + c` contains `b`. */
  lemma ContainsMiddle(a: string, b: string, c: string)
    ensures Contains(a + b + c, b)
  {
    assert (a + b + c)[|a|..|a| + |b|] == b;
    assert InfixAt(a + b + c, b, |a|);
  }

  lemma ContainsItself(s: string)
    ensures Contains(s, s)
  {
    assert InfixAt(s, s, 0);
  }

  /** A string containing `p` contains every infix of `p`. */
  lemma {:induction false} ContainsTransitive(s: string, p: string, q: string)
    requires Contains(s, p) && Contains(p, q)
    ensures Contains(s, q)
  {
    var i :| 0 <= i <= |s| - |p| && InfixAt(s, p, i);
    var j :| 0 <= j <= |p| - |q| && InfixAt(p, q, j);
    forall k | 0 <= k < |q| ensures s[i + j..i + j + |q|][k] == q[k] {
      assert s[i + j + k] == s[i..i + |p|][j + k] == p[j + k] == p[j..j + |q|][k];
    }
    assert InfixAt(s, q, i + j);
  }

  /** No character of `s` is one of `cs`. */
  lemma CharsAvoided(s: string, cs: string)
    requires forall i :: 0 <= i < |s| ==> s[i] !in cs
    ensures forall c :: c in cs ==> c !in s
  {
  }

  /** A character of `p` missing from `s` rules out `s.contains(p)`. */
  lemma {:induction false} MissingCharRulesOut(s: string, p: string, c: char)
    requires c in p && c !in s
    ensures !Contains(s, p)
  {
  }

  /** A prefix of `s` is contained in anything that contains `s`. */
  lemma {:induction false} PrefixContainment(s: string, t: string, q: string)
    requires |s| <= |t| && t[..|s|] == s && Contains(s, q)
    ensures Contains(t, q)
  {
    var i :| 0 <= i <= |s| - |q| && InfixAt(s, q, i);
    assert t[i..i + |q|] == s[i..i + |q|];
    assert InfixAt(t, q, i);
  }

  /** Trimming twice is trimming once. */
  lemma TrimTwice(s: string)
    ensures Trim(Trim(s)) == Trim(s)
  {
    TrimOfTrimmed(Trim(s));
  }

  /** A string with no blank character at either end is its own trim. */
  lemma TrimOfTrimmed(s: string)
    requires s == [] || (!IsTrimmable(s[0]) && !IsTrimmable(s[|s| - 1]))
    ensures Trim(s) == s
  {
    assert TrimStart(s) == s;
    assert TrimEnd(s) == s;
  }
}
