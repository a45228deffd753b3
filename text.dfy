/** String operations the catalog relies on: the search box's trim and
    lower-casing, substring search (`includes`) and the code-unit order that
    JavaScript's default `sort` and string comparison use. Strings are
    sequences of Unicode scalar values. */
module Text {

  /** The code points ECMAScript's `String.prototype.trim` strips: the
      WhiteSpace set (tab, vertical tab, form feed, space, no-break space,
      zero-width no-break space and the Zs category) and the LineTerminator
      set (line feed, carriage return, line and paragraph separators). */
  predicate IsTrimmable(c: char) {
    c as int in {
      0x09, 0x0A, 0x0B, 0x0C, 0x0D, 0x20, 0xA0, 0x1680,
      0x2000, 0x2001, 0x2002, 0x2003, 0x2004, 0x2005, 0x2006, 0x2007, 0x2008, 0x2009, 0x200A,
      0x2028, 0x2029, 0x202F, 0x205F, 0x3000, 0xFEFF
    }
  }

  /** Drops the leading trimmable characters: what is left is a suffix of
      `s`, everything dropped was trimmable, and what is left does not start
      with a trimmable character. */
  function TrimStart(s: string): (r: string)
    ensures |r| <= |s| && r == s[|s| - |r|..]
    ensures forall k :: 0 <= k < |s| - |r| ==> IsTrimmable(s[k])
    ensures r == [] || !IsTrimmable(r[0])
    decreases |s|
  {
    if s != [] && IsTrimmable(s[0]) then TrimStart(s[1..]) else s
  }

  /** Drops the trailing trimmable characters: the mirror image of TrimStart. */
  function TrimEnd(s: string): (r: string)
    ensures |r| <= |s| && r == s[..|r|]
    ensures forall k :: |r| <= k < |s| ==> IsTrimmable(s[k])
    ensures r == [] || !IsTrimmable(r[|r| - 1])
    decreases |s|
  {
    if s != [] && IsTrimmable(s[|s| - 1]) then TrimEnd(s[..|s| - 1]) else s
  }

  /** Neither end of `s` is a trimmable character. */
  predicate IsTrimmed(s: string) {
    s == [] || (!IsTrimmable(s[0]) && !IsTrimmable(s[|s| - 1]))
  }

  /** `String.prototype.trim`: neither end of the result is white space, and
      a string with no white space at either end is returned as it is. */
  function Trim(s: string): (r: string)
    ensures IsTrimmed(r)
    ensures IsTrimmed(s) ==> r == s
  {
    TrimEnd(TrimStart(s))
  }

  /** Trim keeps one contiguous slice `s[i..j]` of `s`, and everything before
      and after that slice is white space: `trim` removes white space only. */
  lemma TrimIsSlice(s: string) returns (i: nat, j: nat)
    ensures i <= j <= |s| && Trim(s) == s[i..j]
    ensures forall k :: 0 <= k < i ==> IsTrimmable(s[k])
    ensures forall k :: j <= k < |s| ==> IsTrimmable(s[k])
  {
    var t := TrimStart(s);
    var r := TrimEnd(t);
    i, j := |s| - |t|, |s| - |t| + |r|;
    PrefixOfSuffix(s, t, r);
    TailOfSuffixTrimmable(s, t, r);
  }

  /** A prefix `r` of a suffix `t` of `s` is a slice of `s`. */
  lemma PrefixOfSuffix(s: string, t: string, r: string)
    requires |t| <= |s| && t == s[|s| - |t|..]
    requires |r| <= |t| && r == t[..|r|]
    ensures r == s[|s| - |t|..|s| - |t| + |r|]
  {
  }

  /** When `t` is a suffix of `s` and everything of `t` after its prefix `r`
      is trimmable, so is everything of `s` after the copy of `r`. */
  lemma TailOfSuffixTrimmable(s: string, t: string, r: string)
    requires |t| <= |s| && t == s[|s| - |t|..]
    requires |r| <= |t| && forall k :: |r| <= k < |t| ==> IsTrimmable(t[k])
    ensures forall k :: |s| - |t| + |r| <= k < |s| ==> IsTrimmable(s[k])
  {
    forall k | |s| - |t| + |r| <= k < |s|
      ensures IsTrimmable(s[k])
    {
      assert s[k] == t[k - (|s| - |t|)];
    }
  }

  predicate IsAsciiUpper(c: char) {
    'A' <= c <= 'Z'
  }

  /** Lower-cases one character; only the ASCII letters A-Z change. */
  function LowerChar(c: char): (d: char)
    ensures !IsAsciiUpper(d)
    ensures IsTrimmable(d) == IsTrimmable(c)
    ensures !IsAsciiUpper(c) ==> d == c
  {
    if IsAsciiUpper(c) then (c as int + 32) as char else c
  }

  /** `String.prototype.toLowerCase`, restricted to ASCII letters: no
      upper-case letter is left, and a string without one is unchanged. */
  function Lower(s: string): (r: string)
    ensures |r| == |s|
    ensures forall i :: 0 <= i < |s| && IsAsciiUpper(s[i]) ==> r[i] as int == s[i] as int + 32
    ensures forall i :: 0 <= i < |s| && !IsAsciiUpper(s[i]) ==> r[i] == s[i]
    ensures forall i :: 0 <= i < |r| ==> !IsAsciiUpper(r[i])
    ensures (forall i :: 0 <= i < |s| ==> !IsAsciiUpper(s[i])) ==> r == s
  {
    seq(|s|, i requires 0 <= i < |s| => LowerChar(s[i]))
  }

  /** A query as the search handler stores it: trimmed and lower-case. */
  predicate IsNormalized(q: string) {
    IsTrimmed(q) && forall i :: 0 <= i < |q| ==> !IsAsciiUpper(q[i])
  }

  /** The search handler's `value.trim().toLowerCase()`: the result is
      normalised, and a query that is already normalised is kept as it is. */
  function NormalizeQuery(raw: string): (q: string)
    ensures IsNormalized(q)
    ensures IsNormalized(raw) ==> q == raw
  {
    Lower(Trim(raw))
  }

  /** Normalising twice is normalising once. */
  lemma NormalizeIdempotent(raw: string)
    ensures NormalizeQuery(NormalizeQuery(raw)) == NormalizeQuery(raw)
  {
  }

  /** A search box holding only white space yields the empty query, which
      switches the text filter off; any other content yields a non-empty one. */
  lemma {:induction false} BlankQueryIsEmpty(raw: string)
    ensures NormalizeQuery(raw) == "" <==> forall k :: 0 <= k < |raw| ==> IsTrimmable(raw[k])
  {
    var t := TrimStart(raw);
    if t != [] {
      assert !IsTrimmable(t[0]);
      assert TrimEnd(t) != [];
      assert !IsTrimmable(raw[|raw| - |t|]);
    }
  }

  /** `q` starts at position `i` of `s`. */
  predicate OccursAt(s: string, q: string, i: nat) {
    i + |q| <= |s| && s[i..i + |q|] == q
  }

  /** `String.prototype.includes`: tries each starting position in turn. */
  predicate Contains(s: string, q: string)
    decreases |s|
  {
    |q| <= |s| && (s[..|q|] == q || (s != [] && Contains(s[1..], q)))
  }

  /** Contains holds exactly when `q` occurs at some position of `s`. */
  lemma {:induction false} ContainsIff(s: string, q: string)
    ensures Contains(s, q) <==> exists i: nat :: OccursAt(s, q, i)
    decreases |s|
  {
    if Contains(s, q) {
      if s[..|q|] == q {
        assert OccursAt(s, q, 0);
      } else {
        ContainsIff(s[1..], q);
        var i: nat :| OccursAt(s[1..], q, i);
        assert s[i + 1..i + 1 + |q|] == s[1..][i..i + |q|];
        assert OccursAt(s, q, i + 1);
      }
    }
    if exists i: nat :: OccursAt(s, q, i) {
      var i: nat :| OccursAt(s, q, i);
      if i > 0 {
        assert s[1..][i - 1..i - 1 + |q|] == s[i..i + |q|];
        assert OccursAt(s[1..], q, i - 1);
        ContainsIff(s[1..], q);
      }
    }
  }

  /** The position of a character in UTF-16 code-unit order: characters
      below U+D800 keep their value, characters above U+FFFF (encoded with a
      leading surrogate in U+D800..U+DBFF) come next, and the characters
      U+E000..U+FFFF come last. */
  function CodeUnitRank(c: char): (r: int)
    ensures 0 <= r
  {
    var n := c as int;
    if n < 0xD800 then n
    else if n < 0x1_0000 then n + 0x10_0000
    else n - 0x1_0000 + 0xD800
  }

  /** The rank sorts characters the way their first UTF-16 code units do:
      below U+D800 by code point, then every character from U+10000 up,
      then U+E000..U+FFFF, each band in code-point order. */
  lemma CodeUnitRankBands(c: char, d: char)
    ensures c as int < 0xD800 && 0x1_0000 <= d as int ==> CodeUnitRank(c) < CodeUnitRank(d)
    ensures 0x1_0000 <= c as int && 0xE000 <= d as int < 0x1_0000 ==> CodeUnitRank(c) < CodeUnitRank(d)
    ensures c as int < 0xD800 && 0xE000 <= d as int < 0x1_0000 ==> CodeUnitRank(c) < CodeUnitRank(d)
    ensures (c as int < 0xD800 && d as int < 0xD800) || (0xE000 <= c as int < 0x1_0000 && 0xE000 <= d as int < 0x1_0000)
         || (0x1_0000 <= c as int && 0x1_0000 <= d as int)
         ==> (CodeUnitRank(c) < CodeUnitRank(d) <==> c < d)
  {
  }

  lemma CodeUnitRankInjective(c: char, d: char)
    ensures c != d ==> CodeUnitRank(c) != CodeUnitRank(d)
  {
  }

  /** JavaScript's `<` on strings: lexicographic comparison of the UTF-16
      code units, a proper prefix coming first. */
  predicate CodeUnitLess(a: string, b: string)
    decreases |a|
  {
    if a == [] then b != []
    else if b == [] then false
    else if a[0] != b[0] then CodeUnitRank(a[0]) < CodeUnitRank(b[0])
    else CodeUnitLess(a[1..], b[1..])
  }

  lemma {:induction false} CodeUnitLessIrreflexive(a: string)
    ensures !CodeUnitLess(a, a)
    decreases |a|
  {
    if a != [] {
      CodeUnitLessIrreflexive(a[1..]);
    }
  }

  lemma {:induction false} CodeUnitLessAsymmetric(a: string, b: string)
    ensures CodeUnitLess(a, b) ==> !CodeUnitLess(b, a)
    decreases |a|
  {
    if a != [] && b != [] && a[0] == b[0] {
      CodeUnitLessAsymmetric(a[1..], b[1..]);
    }
  }

  lemma {:induction false} CodeUnitLessTransitive(a: string, b: string, c: string)
    ensures CodeUnitLess(a, b) && CodeUnitLess(b, c) ==> CodeUnitLess(a, c)
    decreases |a|
  {
    if a != [] && b != [] && c != [] && a[0] == b[0] && b[0] == c[0] {
      CodeUnitLessTransitive(a[1..], b[1..], c[1..]);
    }
  }

  /** Any two different strings are ordered one way or the other. */
  lemma {:induction false} CodeUnitLessTotal(a: string, b: string)
    ensures a == b || CodeUnitLess(a, b) || CodeUnitLess(b, a)
    decreases |a|
  {
    if a != [] && b != [] {
      if a[0] == b[0] {
        CodeUnitLessTotal(a[1..], b[1..]);
        if a[1..] == b[1..] {
          assert a == [a[0]] + a[1..] && b == [b[0]] + b[1..];
        }
      } else {
        CodeUnitRankInjective(a[0], b[0]);
      }
    }
  }
}
