/**
 * The string operations the modelled code calls: Python's str.lower/upper
 * (ASCII letters), str.strip, substring search, endswith, replace(p, '')
 * and split('.')[0], plus Python's code-point order on strings.
 */
module Strings {

  predicate IsUpperAscii(c: char) { 'A' <= c <= 'Z' }

  predicate IsLowerAscii(c: char) { 'a' <= c <= 'z' }

  function LowerChar(c: char): char
  {
    if IsUpperAscii(c) then (c as int + 32) as char else c
  }

  function UpperChar(c: char): char
  {
    if IsLowerAscii(c) then (c as int - 32) as char else c
  }

  /** str.lower() on the ASCII letters. */
  function Lower(s: string): string
  {
    seq(|s|, i requires 0 <= i < |s| => LowerChar(s[i]))
  }

  /** str.upper() on the ASCII letters. */
  function Upper(s: string): string
  {
    seq(|s|, i requires 0 <= i < |s| => UpperChar(s[i]))
  }

  predicate NoUpper(s: string) { forall i :: 0 <= i < |s| ==> !IsUpperAscii(s[i]) }

  lemma {:induction false} LowerHasNoUpper(s: string)
    ensures NoUpper(Lower(s))
  {
    forall i | 0 <= i < |s| ensures !IsUpperAscii(Lower(s)[i]) {
      var c := s[i];
      if IsUpperAscii(c) {
        assert Lower(s)[i] == (c as int + 32) as char;
      }
    }
  }

  lemma LowerOfNoUpper(s: string)
    requires NoUpper(s)
    ensures Lower(s) == s
  {
  }

  /** Lower-casing twice is lower-casing once. */
  lemma {:induction false} LowerIdempotent(s: string)
    ensures Lower(Lower(s)) == Lower(s)
  {
    LowerHasNoUpper(s);
    LowerOfNoUpper(Lower(s));
  }

  lemma UpperHasNoLower(s: string, i: int)
    requires 0 <= i < |s|
    ensures !IsLowerAscii(Upper(s)[i])
  {
    var c := s[i];
    if IsLowerAscii(c) {
      assert Upper(s)[i] == (c as int - 32) as char;
    }
  }

  /** Python's str.isspace() for one character (the whole Unicode whitespace set). */
  predicate IsSpace(c: char)
  {
    var n := c as int;
    n == 0x20 || 0x09 <= n <= 0x0D || 0x1C <= n <= 0x1F || n == 0x85 || n == 0xA0
    || n == 0x1680 || 0x2000 <= n <= 0x200A || n == 0x2028 || n == 0x2029
    || n == 0x202F || n == 0x205F || n == 0x3000
  }

  function TrimLeft(s: string): string
  {
    if s != [] && IsSpace(s[0]) then TrimLeft(s[1..]) else s
  }

  function TrimRight(s: string): string
  {
    if s != [] && IsSpace(s[|s| - 1]) then TrimRight(s[..|s| - 1]) else s
  }

  /** str.strip() with no argument. */
  function Strip(s: string): string
  {
    TrimRight(TrimLeft(s))
  }

  /** Neither end of s is whitespace. */
  predicate Trimmed(s: string)
  {
    s == [] || (!IsSpace(s[0]) && !IsSpace(s[|s| - 1]))
  }

  lemma {:induction false} TrimLeftIsSuffix(s: string) returns (k: nat)
    ensures k <= |s| && TrimLeft(s) == s[k..]
    ensures TrimLeft(s) == [] || !IsSpace(TrimLeft(s)[0])
    decreases |s|
  {
    if s != [] && IsSpace(s[0]) {
      var k' := TrimLeftIsSuffix(s[1..]);
      k := k' + 1;
      assert s[1..][k'..] == s[k..];
    } else {
      k := 0;
    }
  }

  lemma {:induction false} TrimRightIsPrefix(s: string) returns (k: nat)
    ensures k <= |s| && TrimRight(s) == s[..k]
    ensures TrimRight(s) == [] || !IsSpace(TrimRight(s)[|TrimRight(s)| - 1])
    decreases |s|
  {
    if s != [] && IsSpace(s[|s| - 1]) {
      k := TrimRightIsPrefix(s[..|s| - 1]);
      assert s[..|s| - 1][..k] == s[..k];
    } else {
      k := |s|;
    }
  }

  /** The result of strip() is a contiguous part of its input and has no whitespace at either end. */
  lemma {:induction false} StripIsSlice(s: string) returns (a: nat, b: nat)
    ensures a <= b <= |s| && Strip(s) == s[a..b]
    ensures Trimmed(Strip(s))
  {
    a := TrimLeftIsSuffix(s);
    var t := TrimLeft(s);
    var k := TrimRightIsPrefix(t);
    var r := TrimRight(t);
    assert Strip(s) == r;
    b := a + k;
    assert s[a..][..k] == s[a..b];
    if r != [] {
      assert r[0] == t[0];
    }
  }

  lemma StripOfTrimmed(s: string)
    requires Trimmed(s)
    ensures Strip(s) == s
  {
  }

  /** strip() is idempotent. */
  lemma {:induction false} StripIdempotent(s: string)
    ensures Strip(Strip(s)) == Strip(s)
  {
    var a, b := StripIsSlice(s);
    StripOfTrimmed(Strip(s));
  }

  /** p occurs in s at position i. */
  predicate OccursAt(s: string, p: string, i: int)
  {
    0 <= i && i + |p| <= |s| && s[i..i + |p|] == p
  }

  /** Python's `p in s`. */
  predicate Contains(s: string, p: string)
  {
    exists i | 0 <= i <= |s| - |p| :: OccursAt(s, p, i)
  }

  /** Python's s.endswith(p). */
  predicate EndsWith(s: string, p: string)
  {
    |p| <= |s| && s[|s| - |p|..] == p
  }

  /** A string that ends with p contains p. */
  lemma EndsWithContains(s: string, p: string)
    requires EndsWith(s, p)
    ensures Contains(s, p)
  {
    assert OccursAt(s, p, |s| - |p|);
  }

  /** Python's s.replace(p, ''): every non-overlapping occurrence, from the left, removed. */
  function RemoveAll(s: string, p: string): string
    requires |p| > 0
    decreases |s|
  {
    if |s| < |p| then s
    else if s[..|p|] == p then RemoveAll(s[|p|..], p)
    else [s[0]] + RemoveAll(s[1..], p)
  }

  /** A string in which p does not occur is left alone by replace(p, ''). */
  lemma {:induction false} RemoveAbsent(s: string, p: string)
    requires |p| > 0
    requires forall i :: !OccursAt(s, p, i)
    ensures RemoveAll(s, p) == s
    decreases |s|
  {
    if |s| >= |p| {
      assert !OccursAt(s, p, 0);
      assert s[..|p|] != p;
      forall i ensures !OccursAt(s[1..], p, i) {
        if OccursAt(s[1..], p, i) {
          assert s[1..][i..i + |p|] == s[i + 1..i + 1 + |p|];
          assert OccursAt(s, p, i + 1);
        }
      }
      RemoveAbsent(s[1..], p);
    }
  }

  /** If no occurrence of p starts inside the prefix x, replace(p, '') keeps x and works on the rest. */
  lemma {:induction false} RemoveKeepsPrefix(x: string, s: string, p: string)
    requires |p| > 0
    requires forall i :: 0 <= i < |x| ==> !OccursAt(x + s, p, i)
    ensures RemoveAll(x + s, p) == x + RemoveAll(s, p)
    decreases |x|
  {
    if x != [] {
      var w := x + s;
      if |w| < |p| {
        assert RemoveAll(s, p) == s;
      } else {
        assert !OccursAt(w, p, 0);
        assert w[..|p|] != p;
        assert w[1..] == x[1..] + s;
        forall i | 0 <= i < |x[1..]| ensures !OccursAt(x[1..] + s, p, i) {
          if OccursAt(x[1..] + s, p, i) {
            assert (x[1..] + s)[i..i + |p|] == w[i + 1..i + 1 + |p|];
            assert OccursAt(w, p, i + 1);
          }
        }
        RemoveKeepsPrefix(x[1..], s, p);
        assert RemoveAll(w, p) == [w[0]] + RemoveAll(w[1..], p);
        assert x == [x[0]] + x[1..];
      }
    } else {
      assert x + s == s;
    }
  }

  /** A leading occurrence of p is removed. */
  lemma RemoveLeading(s: string, p: string)
    requires |p| > 0
    ensures RemoveAll(p + s, p) == RemoveAll(s, p)
  {
    assert (p + s)[..|p|] == p;
    assert (p + s)[|p|..] == s;
  }

  predicate DotFree(s: string) { forall i :: 0 <= i < |s| ==> s[i] != '.' }

  /** Python's s.split('.')[0]: the text before the first dot. */
  function FirstSegment(s: string): string
  {
    if s == [] || s[0] == '.' then [] else [s[0]] + FirstSegment(s[1..])
  }

  lemma {:induction false} FirstSegmentOfDotFree(x: string, s: string)
    requires DotFree(x)
    requires s == [] || s[0] == '.'
    ensures FirstSegment(x + s) == x
  {
    if x != [] {
      assert (x + s)[1..] == x[1..] + s;
      FirstSegmentOfDotFree(x[1..], s);
    } else {
      assert x + s == s;
    }
  }

  /** Python's `<` on strings: lexicographic on code points. */
  predicate StrLess(a: string, b: string)
  {
    if a == [] then b != []
    else if b == [] then false
    else if a[0] != b[0] then a[0] < b[0]
    else StrLess(a[1..], b[1..])
  }

  lemma {:induction false} StrLessIrreflexive(a: string)
    ensures !StrLess(a, a)
  {
    if a != [] { StrLessIrreflexive(a[1..]); }
  }

  lemma {:induction false} StrLessTransitive(a: string, b: string, c: string)
    requires StrLess(a, b) && StrLess(b, c)
    ensures StrLess(a, c)
  {
    if a != [] && b != [] && c != [] && a[0] == b[0] && b[0] == c[0] {
      StrLessTransitive(a[1..], b[1..], c[1..]);
    }
  }

  lemma {:induction false} StrLessTotal(a: string, b: string)
    requires a != b
    ensures StrLess(a, b) || StrLess(b, a)
  {
    if a != [] && b != [] && a[0] == b[0] {
      assert a == [a[0]] + a[1..] && b == [b[0]] + b[1..];
      StrLessTotal(a[1..], b[1..]);
    }
  }
}
