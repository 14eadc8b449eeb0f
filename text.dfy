/**
 * String primitives with the semantics of the Python string methods the
 * analyzer relies on: `t in s`, `s.startswith(p)`, `s.lower()`, `s.strip()`,
 * `s.split(d)`, `s.replace(p, '')`, `sep.join(parts)`, and the `\b` word
 * boundary of Python's `re` module. Strings are sequences of Unicode scalar
 * values, as Python's `str` is a sequence of code points.
 */
module Text {

  // ---------------------------------------------------------------------
  // Substrings and prefixes
  // ---------------------------------------------------------------------

  /** `t in s`: t occurs as a contiguous piece of s. */
  predicate Contains(s: string, t: string)
  {
    exists i | 0 <= i <= |s| - |t| :: OccursAt(s, t, i)
  }

  /** t stands in s at position i. */
  predicate OccursAt(s: string, t: string, i: int)
  {
    0 <= i <= |s| - |t| && s[i..i + |t|] == t
  }

  /** `s.startswith(p)` */
  predicate StartsWith(s: string, p: string)
  {
    |p| <= |s| && s[..|p|] == p
  }

  /** `any(t in s for t in ts)` */
  predicate ContainsAny(s: string, ts: seq<string>)
  {
    exists k | 0 <= k < |ts| :: Contains(s, ts[k])
  }

  lemma ContainsAt(s: string, t: string, i: int)
    requires OccursAt(s, t, i)
    ensures Contains(s, t)
  {
  }

  /** A character of t that s lacks rules out every occurrence of t in s. */
  lemma {:induction false} NotContainsByChar(s: string, t: string, c: char)
    requires c in t && c !in s
    ensures !Contains(s, t)
  {
    var k :| 0 <= k < |t| && t[k] == c;
    forall i | 0 <= i <= |s| - |t| ensures !OccursAt(s, t, i) {
      assert s[i + k] in s;
    }
  }

  /** An occurrence in a piece of a string is an occurrence in the string. */
  lemma ContainsInConcat(a: string, b: string, t: string)
    ensures Contains(a, t) ==> Contains(a + b, t)
    ensures Contains(b, t) ==> Contains(a + b, t)
  {
    if Contains(a, t) {
      var i :| 0 <= i <= |a| - |t| && OccursAt(a, t, i);
      assert (a + b)[i..i + |t|] == a[i..i + |t|];
      assert OccursAt(a + b, t, i);
    }
    if Contains(b, t) {
      var i :| 0 <= i <= |b| - |t| && OccursAt(b, t, i);
      assert (a + b)[|a| + i..|a| + i + |t|] == b[i..i + |t|];
      assert OccursAt(a + b, t, |a| + i);
    }
  }

  /** Position of the first occurrence of t in s at or after `from` (`s.find(t)`). */
  function FindFrom(s: string, t: string, from: nat): (r: Option<nat>)
    requires from <= |s|
    ensures r.Some? ==> from <= r.value && OccursAt(s, t, r.value)
    ensures r.Some? ==> forall j | from <= j < r.value :: !OccursAt(s, t, j)
    ensures r.None? ==> forall j | from <= j :: !OccursAt(s, t, j)
    decreases |s| - from
  {
    if from + |t| > |s| then None
    else if s[from..from + |t|] == t then Some(from)
    else if from == |s| then None
    else FindFrom(s, t, from + 1)
  }

  // ---------------------------------------------------------------------
  // Lower-casing
  // ---------------------------------------------------------------------

  /**
   * `c.lower()` for ASCII, Latin-1 and the basic Cyrillic block; every
   * other character is left as it is.
   */
  function LowerChar(c: char): char
  {
    var n := c as int;
    if 0x41 <= n <= 0x5A then (n + 0x20) as char                      // A-Z
    else if 0xC0 <= n <= 0xDE && n != 0xD7 then (n + 0x20) as char    // À-Þ
    else if 0x410 <= n <= 0x42F then (n + 0x20) as char               // А-Я
    else if 0x400 <= n <= 0x40F then (n + 0x50) as char               // Ѐ-Џ, Ё among them
    else c
  }

  /** `s.lower()`: character-wise, length-preserving. */
  function Lower(s: string): string
  {
    seq(|s|, i requires 0 <= i < |s| => LowerChar(s[i]))
  }

  /** A string with no upper-case letter is its own lower-case form. */
  lemma LowerOfLowerCase(s: string)
    requires forall i | 0 <= i < |s| :: LowerChar(s[i]) == s[i]
    ensures Lower(s) == s
  {
  }

  // ---------------------------------------------------------------------
  // Whitespace and strip()
  // ---------------------------------------------------------------------

  /** `c.isspace()` */
  predicate IsSpace(c: char)
  {
    var n := c as int;
    (0x09 <= n <= 0x0D) || (0x1C <= n <= 0x20) || n == 0x85 || n == 0xA0 ||
    n == 0x1680 || (0x2000 <= n <= 0x200A) || n == 0x2028 || n == 0x2029 ||
    n == 0x202F || n == 0x205F || n == 0x3000
  }

  /** `s.lstrip()` */
  function StripLeft(s: string): string
  {
    if |s| > 0 && IsSpace(s[0]) then StripLeft(s[1..]) else s
  }

  /** lstrip() removes a run of leading whitespace and stops at the first other character. */
  lemma {:induction false} StripLeftSpec(s: string)
    ensures |StripLeft(s)| <= |s| && StripLeft(s) == s[|s| - |StripLeft(s)|..]
    ensures StripLeft(s) == [] || !IsSpace(StripLeft(s)[0])
    ensures forall i | 0 <= i < |s| - |StripLeft(s)| :: IsSpace(s[i])
  {
    if |s| > 0 && IsSpace(s[0]) {
      StripLeftSpec(s[1..]);
    }
  }

  /** `s.rstrip()` */
  function StripRight(s: string): string
  {
    if |s| > 0 && IsSpace(s[|s| - 1]) then StripRight(s[..|s| - 1]) else s
  }

  /** rstrip() removes a run of trailing whitespace and stops at the last other character. */
  lemma {:induction false} StripRightSpec(s: string)
    ensures |StripRight(s)| <= |s| && StripRight(s) == s[..|StripRight(s)|]
    ensures StripRight(s) == [] || !IsSpace(StripRight(s)[|StripRight(s)| - 1])
    ensures forall i | |StripRight(s)| <= i < |s| :: IsSpace(s[i])
  {
    if |s| > 0 && IsSpace(s[|s| - 1]) {
      StripRightSpec(s[..|s| - 1]);
    }
  }

  /** `s.strip()` */
  function Strip(s: string): string
  {
    StripRight(StripLeft(s))
  }

  /** A string that neither starts nor ends with whitespace. */
  predicate Trimmed(s: string)
  {
    s == [] || (!IsSpace(s[0]) && !IsSpace(s[|s| - 1]))
  }

  /** strip() leaves no whitespace at either end, and nothing else is removed. */
  lemma {:induction false} StripIsTrimmed(s: string)
    ensures Trimmed(Strip(s))
    ensures |Strip(s)| <= |s|
  {
    var l := StripLeft(s);
    var r := StripRight(l);
    StripLeftSpec(s);
    StripRightSpec(l);
    if r != [] {
      assert r[0] == l[0];
    }
  }

  /** strip() changes nothing on a trimmed string. */
  lemma {:induction false} StripOfTrimmed(s: string)
    requires Trimmed(s)
    ensures Strip(s) == s
  {
  }

  /** Whitespace added around a trimmed string is exactly what strip() takes off. */
  lemma {:induction false} StripPadded(w1: string, x: string, w2: string)
    requires forall i | 0 <= i < |w1| :: IsSpace(w1[i])
    requires forall i | 0 <= i < |w2| :: IsSpace(w2[i])
    requires x != [] && Trimmed(x)
    ensures Strip(w1 + x + w2) == x
  {
    StripLeftSpaces(w1, x + w2);
    assert w1 + x + w2 == w1 + (x + w2);
    StripRightSpaces(x, w2);
  }

  lemma {:induction false} StripLeftSpaces(w: string, x: string)
    requires forall i | 0 <= i < |w| :: IsSpace(w[i])
    requires x == [] || !IsSpace(x[0])
    ensures StripLeft(w + x) == x
    decreases |w|
  {
    if w != [] {
      assert (w + x)[1..] == w[1..] + x;
      StripLeftSpaces(w[1..], x);
    } else {
      assert w + x == x;
    }
  }

  lemma {:induction false} StripRightSpaces(x: string, w: string)
    requires forall i | 0 <= i < |w| :: IsSpace(w[i])
    requires x == [] || !IsSpace(x[|x| - 1])
    ensures StripRight(x + w) == x
    decreases |w|
  {
    if w != [] {
      assert (x + w)[..|x + w| - 1] == x + w[..|w| - 1];
      StripRightSpaces(x, w[..|w| - 1]);
    } else {
      assert x + w == x;
    }
  }

  // ---------------------------------------------------------------------
  // split(), join() and replace(p, '')
  // ---------------------------------------------------------------------

  /** `s.split(d)` for a one-character separator: never empty, no piece holds d. */
  function Split(s: string, d: char): (parts: seq<string>)
    ensures |parts| >= 1
    ensures forall k | 0 <= k < |parts| :: d !in parts[k]
  {
    if s == [] then [[]]
    else
      var rest := Split(s[1..], d);
      if s[0] == d then [[]] + rest
      else [[s[0]] + rest[0]] + rest[1..]
  }

  /** `sep.join(parts)` */
  function JoinWith(parts: seq<string>, sep: string): string
  {
    if |parts| == 0 then []
    else if |parts| == 1 then parts[0]
    else parts[0] + sep + JoinWith(parts[1..], sep)
  }

  /** Splitting and joining back with the same separator gives the original text. */
  lemma {:induction false} JoinSplit(s: string, d: char)
    ensures JoinWith(Split(s, d), [d]) == s
  {
    if s != [] {
      var rest := Split(s[1..], d);
      JoinSplit(s[1..], d);
      if s[0] == d {
        assert Split(s, d) == [[]] + rest;
        assert ([[]] + rest)[1..] == rest;
      } else {
        var parts := Split(s, d);
        assert parts == [[s[0]] + rest[0]] + rest[1..];
        if |rest| == 1 {
          assert JoinWith(rest, [d]) == rest[0];
        } else {
          assert JoinWith(rest, [d]) == rest[0] + [d] + JoinWith(rest[1..], [d]);
          assert parts[1..] == rest[1..];
        }
      }
    }
  }

  /** Splitting the join of separator-free pieces gives the pieces back. */
  lemma {:induction false} SplitJoin(parts: seq<string>, d: char)
    requires |parts| >= 1
    requires forall k | 0 <= k < |parts| :: d !in parts[k]
    ensures Split(JoinWith(parts, [d]), d) == parts
    decreases |parts|, |parts[0]|
  {
    if |parts| == 1 {
      SplitPlain(parts[0], d);
    } else {
      var tail := JoinWith(parts[1..], [d]);
      SplitJoin(parts[1..], d);
      SplitPrefix(parts[0], tail, d);
      assert JoinWith(parts, [d]) == parts[0] + [d] + tail;
      assert [parts[0]] + parts[1..] == parts;
    }
  }

  lemma {:induction false} SplitPlain(s: string, d: char)
    requires d !in s
    ensures Split(s, d) == [s]
  {
    if s != [] {
      SplitPlain(s[1..], d);
      assert [s[0]] + s[1..] == s;
    }
  }

  /** A separator-free head becomes the first piece; the rest splits as before. */
  lemma {:induction false} SplitPrefix(a: string, b: string, d: char)
    requires d !in a
    ensures Split(a + [d] + b, d) == [a] + Split(b, d)
  {
    if a == [] {
      assert a + [d] + b == [d] + b;
      assert ([d] + b)[1..] == b;
    } else {
      assert (a + [d] + b)[1..] == a[1..] + [d] + b;
      SplitPrefix(a[1..], b, d);
      assert [a[0]] + a[1..] == a;
    }
  }

  /** Joining one more piece adds the separator and the piece at the end. */
  lemma {:induction false} JoinWithAppend(parts: seq<string>, x: string, sep: string)
    requires |parts| >= 1
    ensures JoinWith(parts + [x], sep) == JoinWith(parts, sep) + sep + x
    decreases |parts|
  {
    if |parts| == 1 {
      assert (parts + [x])[1..] == [x];
    } else {
      assert (parts + [x])[1..] == parts[1..] + [x];
      JoinWithAppend(parts[1..], x, sep);
    }
  }

  /** Each piece occurs in the joined text. */
  lemma {:induction false} JoinContainsParts(parts: seq<string>, sep: string, k: int)
    requires 0 <= k < |parts|
    ensures Contains(JoinWith(parts, sep), parts[k])
    decreases |parts|
  {
    if |parts| == 1 {
      ContainsAt(parts[0], parts[0], 0);
    } else if k == 0 {
      ContainsAt(parts[0], parts[0], 0);
      ContainsInConcat(parts[0], sep + JoinWith(parts[1..], sep), parts[0]);
      assert JoinWith(parts, sep) == parts[0] + (sep + JoinWith(parts[1..], sep));
    } else {
      JoinContainsParts(parts[1..], sep, k - 1);
      ContainsInConcat(parts[0] + sep, JoinWith(parts[1..], sep), parts[k]);
    }
  }

  /** A character found neither in the pieces nor in the separator is not in the joined text. */
  lemma {:induction false} CharNotInJoin(parts: seq<string>, sep: string, c: char)
    requires forall k | 0 <= k < |parts| :: c !in parts[k]
    requires c !in sep
    ensures c !in JoinWith(parts, sep)
    decreases |parts|
  {
    if |parts| > 1 {
      CharNotInJoin(parts[1..], sep, c);
    }
  }

  /** Every character of s covered by an occurrence of t is a character of t. */
  lemma OccurrenceChars(s: string, t: string, i: int)
    requires OccursAt(s, t, i)
    ensures forall p | i <= p < i + |t| :: s[p] in t
  {
    forall p | i <= p < i + |t| ensures s[p] in t {
      assert s[p] == s[i..i + |t|][p - i];
    }
  }

  /** Non-empty text with no `|` that neither starts nor ends with a space. */
  predicate Unbroken(t: string)
  {
    |t| > 0 && '|' !in t && t[0] != ' ' && t[|t| - 1] != ' '
  }

  /** Unbroken text occurs in the " | "-join of some parts only inside one of the parts. */
  lemma {:induction false} JoinOccurrenceInPart(parts: seq<string>, t: string)
    requires Unbroken(t)
    ensures Contains(JoinWith(parts, " | "), t) ==> exists m | 0 <= m < |parts| :: Contains(parts[m], t)
    decreases |parts|
  {
    if |parts| == 0 || !Contains(JoinWith(parts, " | "), t) {
    } else if |parts| == 1 {
      assert Contains(parts[0], t);
    } else {
      var a := parts[0];
      var b := JoinWith(parts[1..], " | ");
      var s := a + " | " + b;
      assert s == JoinWith(parts, " | ");
      var i :| 0 <= i <= |s| - |t| && OccursAt(s, t, i);
      // An occurrence cannot reach into the separator: it would hold the
      // `|`, or start or end with one of the spaces around it.
      OccurrenceChars(s, t, i);
      assert s[|a|] == ' ' && s[|a| + 1] == '|' && s[|a| + 2] == ' ';
      assert s[i] == t[0] && s[i + |t| - 1] == t[|t| - 1];
      if i + |t| <= |a| {
        assert s[i..i + |t|] == a[i..i + |t|];
        assert OccursAt(a, t, i);
        assert Contains(parts[0], t);
      } else {
        assert i >= |a| + 3;
        assert s[i..i + |t|] == b[i - |a| - 3..i - |a| - 3 + |t|];
        assert OccursAt(b, t, i - |a| - 3);
        JoinOccurrenceInPart(parts[1..], t);
        var m :| 0 <= m < |parts| - 1 && Contains(parts[1..][m], t);
        assert Contains(parts[m + 1], t);
      }
    }
  }

  /**
   * `s.replace(p, '')`: every non-overlapping occurrence of p, found left to
   * right, is removed, wherever it stands in s.
   */
  function RemoveAll(s: string, p: string): (r: string)
    requires |p| > 0
    ensures |r| <= |s|
    decreases |s|
  {
    if |s| < |p| then s
    else if s[..|p|] == p then RemoveAll(s[|p|..], p)
    else [s[0]] + RemoveAll(s[1..], p)
  }

  /** Text without any occurrence of p is not touched by the removal. */
  lemma {:induction false} RemoveAllAbsent(s: string, p: string)
    requires |p| > 0 && !Contains(s, p)
    ensures RemoveAll(s, p) == s
    decreases |s|
  {
    if |s| >= |p| {
      if s[..|p|] == p {
        ContainsAt(s, p, 0);
      } else {
        if Contains(s[1..], p) {
          var i :| 0 <= i <= |s| - 1 - |p| && OccursAt(s[1..], p, i);
          assert s[i + 1..i + 1 + |p|] == s[1..][i..i + |p|];
          ContainsAt(s, p, i + 1);
        }
        RemoveAllAbsent(s[1..], p);
      }
    }
  }

  // ---------------------------------------------------------------------
  // Word boundaries (Python's `\w` and `\b` on str patterns)
  // ---------------------------------------------------------------------

  /**
   * `\w`: letters and digits of the ASCII, Latin-1 and Cyrillic blocks,
   * and the underscore.
   */
  predicate IsWordChar(c: char)
  {
    var n := c as int;
    ('0' <= c <= '9') || ('A' <= c <= 'Z') || ('a' <= c <= 'z') || c == '_' ||
    n == 0xAA || n == 0xB2 || n == 0xB3 || n == 0xB5 || n == 0xB9 || n == 0xBA ||
    (0xBC <= n <= 0xBE) || (0xC0 <= n <= 0xFF && n != 0xD7 && n != 0xF7) ||
    (0x400 <= n <= 0x481) || (0x48A <= n <= 0x52F)
  }

  /** A `\b` in front of a word character at position i. */
  predicate WordStartAt(s: string, i: int)
    requires 0 <= i <= |s|
  {
    i == 0 || !IsWordChar(s[i - 1])
  }

  /** A `\b` after a word character that ends at position j. */
  predicate WordEndAt(s: string, j: int)
    requires 0 <= j <= |s|
  {
    j == |s| || !IsWordChar(s[j])
  }

  /** `\bw\b` matches at position i (w starts and ends with word characters). */
  predicate WordAt(s: string, w: string, i: int)
  {
    0 <= i <= |s| - |w| && s[i..i + |w|] == w && WordStartAt(s, i) && WordEndAt(s, i + |w|)
  }

  /** `re.search(r'\bw\b', s)` for a phrase w that starts and ends with word characters. */
  predicate ContainsWord(s: string, w: string)
  {
    exists i | 0 <= i <= |s| - |w| :: WordAt(s, w, i)
  }

  /** `re.search(r'\b(w1|w2|...)\b', s)` */
  predicate ContainsAnyWord(s: string, ws: seq<string>)
  {
    exists k | 0 <= k < |ws| :: ContainsWord(s, ws[k])
  }

  /** A whole-word match is in particular a substring match. */
  lemma WordIsSubstring(s: string, w: string)
    ensures ContainsWord(s, w) ==> Contains(s, w)
  {
    if ContainsWord(s, w) {
      var i :| 0 <= i <= |s| - |w| && WordAt(s, w, i);
      assert OccursAt(s, w, i);
    }
  }

  // ---------------------------------------------------------------------
  // Small shared types
  // ---------------------------------------------------------------------

  datatype Option<+T> = None | Some(value: T)

  /** `str(n)` for a natural number: its decimal digits. */
  function NatToString(n: nat): (r: string)
    ensures |r| >= 1
    ensures forall i | 0 <= i < |r| :: '0' <= r[i] <= '9'
  {
    if n < 10 then [Digit(n)] else NatToString(n / 10) + [Digit(n % 10)]
  }

  function Digit(d: nat): (c: char)
    requires d < 10
    ensures '0' <= c <= '9'
  {
    ('0' as int + d) as char
  }

  /** `int(s)` for a string of decimal digits. */
  function DecimalValue(s: string): nat
    requires forall i | 0 <= i < |s| :: '0' <= s[i] <= '9'
  {
    if s == [] then 0
    else 10 * DecimalValue(s[..|s| - 1]) + (s[|s| - 1] as int - '0' as int)
  }

  /** Reading the digits of a number back gives the number. */
  lemma {:induction false} DecimalRoundTrip(n: nat)
    ensures DecimalValue(NatToString(n)) == n
  {
    var r := NatToString(n);
    if n >= 10 {
      DecimalRoundTrip(n / 10);
      assert r[..|r| - 1] == NatToString(n / 10);
    }
  }
}
