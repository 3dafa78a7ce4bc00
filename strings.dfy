/** String operations of the Java and TypeScript runtimes that the modelled code relies on. */
module Strings {

  /** `pat` occurs in `s` at position `i`. */
  predicate OccursAt(s: string, pat: string, i: int)
  {
    0 <= i && i + |pat| <= |s| && s[i..i + |pat|] == pat
  }

  predicate Occurs(s: string, pat: string)
  {
    exists i | 0 <= i <= |s| :: OccursAt(s, pat, i)
  }

  /** Java's `String.replace(CharSequence, CharSequence)` for a non-empty pattern:
      the occurrences are replaced from left to right and never overlap. */
  function ReplaceAll(s: string, pat: string, rep: string): string
    requires |pat| > 0
    decreases |s|
  {
    if s == [] then []
    else if pat <= s then rep + ReplaceAll(s[|pat|..], pat, rep)
    else [s[0]] + ReplaceAll(s[1..], pat, rep)
  }

  /** Java's `String.indexOf(str, fromIndex)` for a non-empty `str`: the first
      position at or after `from` where `t` occurs, or -1 (see IndexFromFirst). */
  function IndexFrom(s: string, t: string, from: nat): (r: int)
    requires |t| > 0
    ensures r == -1 || (from <= r && r + |t| <= |s|)
    decreases |s| - from
  {
    if from + |t| > |s| then -1
    else if t <= s[from..] then from
    else IndexFrom(s, t, from + 1)
  }

  /** The position found is an occurrence and no earlier position at or after
      `from` is one; -1 means there is none at all. */
  lemma {:induction false} IndexFromFirst(s: string, t: string, from: nat)
    requires |t| > 0
    ensures var r := IndexFrom(s, t, from);
            (r != -1 ==> OccursAt(s, t, r))
            && (forall i :: from <= i && (r == -1 || i < r) ==> !OccursAt(s, t, i))
    decreases |s| - from
  {
    if from + |t| <= |s| {
      assert s[from..from + |t|] == s[from..][..|t|];
      if !(t <= s[from..]) {
        IndexFromFirst(s, t, from + 1);
      }
    }
  }

  /** Java's `String.replace(char, char)`. */
  function ReplaceChar(s: string, from: char, to: char): string
  {
    if s == [] then [] else [if s[0] == from then to else s[0]] + ReplaceChar(s[1..], from, to)
  }

  function Digit(d: nat): char
    requires d < 10
  {
    (48 + d) as char
  }

  /** The decimal form of a natural number, as `"" + n` gives it in Java and TypeScript. */
  function Decimal(n: nat): (r: string)
    ensures |r| > 0
    ensures forall i :: 0 <= i < |r| ==> '0' <= r[i] <= '9'
  {
    if n < 10 then [Digit(n)] else Decimal(n / 10) + [Digit(n % 10)]
  }

  /** The value of a string of decimal digits. */
  function DigitsValue(s: string): nat
    requires forall i :: 0 <= i < |s| ==> '0' <= s[i] <= '9'
  {
    if s == [] then 0 else 10 * DigitsValue(s[..|s| - 1]) + (s[|s| - 1] as int - 48)
  }

  lemma {:induction false} DecimalValue(n: nat)
    ensures DigitsValue(Decimal(n)) == n
  {
    if n >= 10 {
      DecimalValue(n / 10);
      var r := Decimal(n);
      assert r[..|r| - 1] == Decimal(n / 10);
    }
  }

  /** `Decimal` is injective, so distinct counters give distinct identifiers. */
  lemma DecimalInjective(m: nat, n: nat)
    requires Decimal(m) == Decimal(n)
    ensures m == n
  {
    DecimalValue(m);
    DecimalValue(n);
  }

  // ---------------------------------------------------------------------
  // Lexicographic order of Java's String.compareTo, which orders a TreeSet<String>

  /** `a` sorts strictly before `b`: the first differing character decides,
      and a proper prefix sorts first. */
  predicate Below(a: string, b: string)
  {
    if a == [] then b != []
    else if b == [] then false
    else if a[0] != b[0] then a[0] < b[0]
    else Below(a[1..], b[1..])
  }

  lemma {:induction false} BelowIrreflexive(a: string)
    ensures !Below(a, a)
  {
    if a != [] { BelowIrreflexive(a[1..]); }
  }

  lemma {:induction false} BelowTransitive(a: string, b: string, c: string)
    requires Below(a, b) && Below(b, c)
    ensures Below(a, c)
  {
    if a != [] && b != [] && c != [] && a[0] == b[0] && b[0] == c[0] {
      BelowTransitive(a[1..], b[1..], c[1..]);
    }
  }

  lemma {:induction false} BelowTotal(a: string, b: string)
    requires a != b
    ensures Below(a, b) || Below(b, a)
  {
    if a != [] && b != [] && a[0] == b[0] {
      BelowTotal(a[1..], b[1..]);
    }
  }

  lemma {:induction false} BelowAsymmetric(a: string, b: string)
    requires Below(a, b)
    ensures !Below(b, a)
  {
    if Below(b, a) {
      BelowTransitive(a, b, a);
      BelowIrreflexive(a);
    }
  }

  /** The order of a `TreeSet<String>`: strictly increasing, hence without duplicates. */
  predicate Sorted(s: seq<string>)
  {
    forall i, j :: 0 <= i < j < |s| ==> Below(s[i], s[j])
  }

  lemma SortedDistinct(s: seq<string>, i: int, j: int)
    requires Sorted(s) && 0 <= i < |s| && 0 <= j < |s| && i != j
    ensures s[i] != s[j]
  {
    if i < j { BelowIrreflexive(s[i]); } else { BelowIrreflexive(s[j]); }
  }

  /** `TreeSet.add`: the element goes to its place in the order; a present element changes nothing. */
  function Insert(s: seq<string>, x: string): (r: seq<string>)
    requires Sorted(s)
    ensures Sorted(r)
    ensures forall y :: y in r <==> y in s || y == x
    ensures x in s ==> r == s
    ensures x !in s ==> |r| == |s| + 1
  {
    if s == [] then [x]
    else if x == s[0] then s
    else if Below(x, s[0]) then
      assert x !in s by {
        forall j | 0 <= j < |s| ensures s[j] != x {
          if j > 0 { BelowTransitive(x, s[0], s[j]); BelowIrreflexive(x); }
        }
      }
      assert Sorted([x] + s) by {
        forall i, j | 0 <= i < j < |s| + 1 ensures Below(([x] + s)[i], ([x] + s)[j]) {
          if i == 0 && j > 1 { BelowTransitive(x, s[0], s[j - 1]); }
        }
      }
      [x] + s
    else
      BelowTotal(x, s[0]);
      var t := Insert(s[1..], x);
      assert Sorted([s[0]] + t) by {
        forall i, j | 0 <= i < j < |t| + 1 ensures Below(([s[0]] + t)[i], ([s[0]] + t)[j]) {
          if i == 0 {
            assert t[j - 1] in s[1..] || t[j - 1] == x;
          }
        }
      }
      assert x in s ==> t == s[1..] by {
        if x in s { assert x in s[1..]; }
      }
      [s[0]] + t
  }

  /** `TreeSet.remove`. */
  function Remove(s: seq<string>, x: string): (r: seq<string>)
    requires Sorted(s)
    ensures Sorted(r)
    ensures forall y :: y in r <==> y in s && y != x
    ensures x !in s ==> r == s
  {
    if s == [] then []
    else if s[0] == x then
      assert x !in s[1..] by {
        forall j | 1 <= j < |s| ensures s[j] != x { SortedDistinct(s, 0, j); }
      }
      s[1..]
    else
      var t := Remove(s[1..], x);
      assert Sorted([s[0]] + t) by {
        forall i, j | 0 <= i < j < |t| + 1 ensures Below(([s[0]] + t)[i], ([s[0]] + t)[j]) {
          if i == 0 { assert t[j - 1] in s[1..]; }
        }
      }
      [s[0]] + t
  }

  // ---------------------------------------------------------------------
  // Java's Character.isWhitespace and String.isBlank

  /** The characters `Character.isWhitespace` accepts: the ASCII controls
      U+0009-U+000D and U+001C-U+001F, and the Unicode space, line and paragraph
      separators except the non-breaking U+00A0, U+2007 and U+202F. */
  predicate IsWhitespace(c: char)
  {
    || ('\U{0009}' <= c <= '\U{000D}')
    || ('\U{001C}' <= c <= '\U{0020}')
    || c == '\U{1680}'
    || ('\U{2000}' <= c <= '\U{2006}')
    || ('\U{2008}' <= c <= '\U{200A}')
    || c == '\U{2028}' || c == '\U{2029}' || c == '\U{205F}' || c == '\U{3000}'
  }

  /** `String.isBlank`: empty or only whitespace. */
  predicate IsBlank(s: string)
  {
    forall i :: 0 <= i < |s| ==> IsWhitespace(s[i])
  }
}
