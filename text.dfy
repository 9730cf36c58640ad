/** Small string facts shared by the stages of the sitemap generator.
    Strings are `seq<char>`; `p <= s` is Dafny's "p is a prefix of s". */
module Text {

  /** `s.startsWith(prefix)`, compared from the first character on. */
  predicate StartsWith(s: string, prefix: string)
    ensures StartsWith(s, prefix) ==> |prefix| <= |s|
  {
    prefix == [] || (s != [] && s[0] == prefix[0] && StartsWith(s[1..], prefix[1..]))
  }

  /** `StartsWith` is Dafny's prefix order. */
  lemma {:induction false} StartsWithIff(s: string, prefix: string)
    ensures StartsWith(s, prefix) <==> prefix <= s
  {
    if prefix != [] && s != [] {
      StartsWithIff(s[1..], prefix[1..]);
      if prefix <= s {
        assert prefix[1..] <= s[1..];
      }
      if StartsWith(s, prefix) {
        assert prefix == [prefix[0]] + prefix[1..];
        assert s == [s[0]] + s[1..];
      }
    }
  }

  /** `s.endsWith(suffix)`, compared from the last character backwards. */
  predicate EndsWith(s: string, suffix: string)
    ensures EndsWith(s, suffix) ==> |suffix| <= |s|
  {
    suffix == [] ||
    (s != [] && s[|s| - 1] == suffix[|suffix| - 1] && EndsWith(s[..|s| - 1], suffix[..|suffix| - 1]))
  }

  /** `EndsWith` says that the last `|suffix|` characters of `s` are `suffix`. */
  lemma {:induction false} EndsWithIff(s: string, suffix: string)
    ensures EndsWith(s, suffix) <==> |suffix| <= |s| && s[|s| - |suffix|..] == suffix
  {
    if suffix == [] {
      assert s[|s|..] == [];
    } else if s != [] && |suffix| <= |s| {
      var s', t' := s[..|s| - 1], suffix[..|suffix| - 1];
      EndsWithIff(s', t');
      var n := |s| - |suffix|;
      assert s[n..] == s'[n..] + [s[|s| - 1]];
      assert suffix == t' + [suffix[|suffix| - 1]];
      if s[n..] == suffix {
        assert s'[n..] == s[n..][..|t'|] == t';
      }
      if EndsWith(s, suffix) {
        assert s'[n..] == t';
        assert s[n..] == t' + [suffix[|suffix| - 1]];
      }
    }
  }

  lemma EndsWithConcat(s: string, suffix: string)
    ensures EndsWith(s + suffix, suffix)
  {
    EndsWithIff(s + suffix, suffix);
    assert (s + suffix)[|s|..] == suffix;
  }

  /** Text in front does not change how a string ends. */
  lemma EndsWithExtend(prefix: string, s: string, suffix: string)
    requires EndsWith(s, suffix)
    ensures EndsWith(prefix + s, suffix)
  {
    EndsWithIff(s, suffix);
    EndsWithIff(prefix + s, suffix);
    assert (prefix + s)[|prefix + s| - |suffix|..] == s[|s| - |suffix|..];
  }

  /** When `s` ends with `suffix`, `s` is what comes before it followed by it. */
  lemma EndsWithSplit(s: string, suffix: string)
    requires EndsWith(s, suffix)
    ensures s == s[..|s| - |suffix|] + suffix
  {
    EndsWithIff(s, suffix);
    assert s == s[..|s| - |suffix|] + s[|s| - |suffix|..];
  }

  /** The text before the first occurrence of `c`, or all of `s` when `c` does not occur:
      `s.split(c)[0]`. */
  function BeforeFirst(s: string, c: char): (r: string)
    ensures r <= s
    ensures c !in r
  {
    if s == [] then []
    else if s[0] == c then []
    else [s[0]] + BeforeFirst(s[1..], c)
  }

  /** When `BeforeFirst` stops short of the end, it stops at a `c`. */
  lemma {:induction false} BeforeFirstStops(s: string, c: char)
    ensures |BeforeFirst(s, c)| < |s| ==> s[|BeforeFirst(s, c)|] == c
  {
    if s != [] && s[0] != c {
      BeforeFirstStops(s[1..], c);
    }
  }

  /** `BeforeFirst` recovers the head of `head + [c] + tail` whenever `head` has no `c`. */
  lemma {:induction false} BeforeFirstSplit(head: string, c: char, tail: string)
    requires c !in head
    ensures BeforeFirst(head + [c] + tail, c) == head
  {
    if head != [] {
      assert (head + [c] + tail)[1..] == head[1..] + [c] + tail;
      BeforeFirstSplit(head[1..], c, tail);
    }
  }

  lemma {:induction false} BeforeFirstWhole(s: string, c: char)
    requires c !in s
    ensures BeforeFirst(s, c) == s
  {
    if s != [] { BeforeFirstWhole(s[1..], c); }
  }

  /** Lexicographic order on strings, character by character; the prefix of a string sorts
      before it. */
  predicate LessEq(a: string, b: string) {
    a == [] || (b != [] && (a[0] < b[0] || (a[0] == b[0] && LessEq(a[1..], b[1..]))))
  }

  lemma {:induction false} LessEqReflexive(a: string)
    ensures LessEq(a, a)
  {
    if a != [] { LessEqReflexive(a[1..]); }
  }

  lemma {:induction false} LessEqTotal(a: string, b: string)
    ensures LessEq(a, b) || LessEq(b, a)
  {
    if a != [] && b != [] && a[0] == b[0] { LessEqTotal(a[1..], b[1..]); }
  }

  lemma {:induction false} LessEqTransitive(a: string, b: string, c: string)
    requires LessEq(a, b) && LessEq(b, c)
    ensures LessEq(a, c)
  {
    if a != [] && a[0] == b[0] && b[0] == c[0] {
      LessEqTransitive(a[1..], b[1..], c[1..]);
    }
  }

  lemma {:induction false} LessEqAntisymmetric(a: string, b: string)
    requires LessEq(a, b) && LessEq(b, a)
    ensures a == b
  {
    if a != [] && b != [] {
      LessEqAntisymmetric(a[1..], b[1..]);
    }
  }

  /** `parts.join(sep)` */
  function Join(parts: seq<string>, sep: string): (r: string)
  {
    if |parts| == 0 then ""
    else if |parts| == 1 then parts[0]
    else parts[0] + sep + Join(parts[1..], sep)
  }

  /** The first part, then either nothing or the separator and the rest joined. */
  lemma JoinCons(parts: seq<string>, sep: string)
    requires parts != []
    ensures |parts| == 1 ==> Join(parts, sep) == parts[0]
    ensures |parts| > 1 ==> Join(parts, sep) == parts[0] + (sep + Join(parts[1..], sep))
  {
  }

  /** A character missing from `s` is missing from every slice of it. */
  lemma NotInSlice(s: string, c: char, i: nat, j: nat)
    requires i <= j <= |s| && c !in s
    ensures c !in s[i..j]
  {
    forall k | 0 <= k < j - i ensures s[i..j][k] != c {
      assert s[i..j][k] == s[i + k];
    }
  }
}
