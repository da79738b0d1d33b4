/**
 The string operations the server relies on from Python's runtime, written out:
 `str.split` on a single separator character and ASCII `str.lower`.
 */
module Text {

  // ---------------------------------------------------------------------------
  // Splitting on one separator character
  // ---------------------------------------------------------------------------

  /** Python's `s.split(sep)` for a one-character separator: the pieces between
      separators, including empty pieces at either end and between adjacent
      separators. There is always at least one piece, and no piece holds `sep`. */
  function Split(s: string, sep: char): (parts: seq<string>)
    ensures |parts| >= 1
    ensures forall i :: 0 <= i < |parts| ==> sep !in parts[i]
    decreases |s|
  {
    if |s| == 0 then [""]
    else if s[0] == sep then [""] + Split(s[1..], sep)
    else
      var rest := Split(s[1..], sep);
      [[s[0]] + rest[0]] + rest[1..]
  }

  /** Python's `sep.join(parts)`: the pieces with one separator between neighbours. */
  function Join(parts: seq<string>, sep: char): string
    requires |parts| >= 1
    decreases |parts|
  {
    if |parts| == 1 then parts[0] else parts[0] + [sep] + Join(parts[1..], sep)
  }

  /** Splitting yields one piece more than there are separators in the text. */
  lemma {:induction false} SplitCount(s: string, sep: char)
    ensures |Split(s, sep)| == multiset(s)[sep] + 1
    decreases |s|
  {
    if |s| > 0 {
      SplitCount(s[1..], sep);
      assert s == [s[0]] + s[1..];
      assert multiset(s) == multiset{s[0]} + multiset(s[1..]);
    }
  }

  lemma {:induction false} JoinConsHead(c: char, parts: seq<string>, sep: char)
    requires |parts| >= 1
    ensures Join([[c] + parts[0]] + parts[1..], sep) == [c] + Join(parts, sep)
  {
    var q := [[c] + parts[0]] + parts[1..];
    if |parts| > 1 {
      assert q[1..] == parts[1..];
    }
  }

  /** Joining the pieces back with the separator restores the text. */
  lemma {:induction false} JoinSplit(s: string, sep: char)
    ensures Join(Split(s, sep), sep) == s
    decreases |s|
  {
    if |s| > 0 {
      JoinSplit(s[1..], sep);
      var rest := Split(s[1..], sep);
      if s[0] == sep {
        assert ([""] + rest)[1..] == rest;
      } else {
        JoinConsHead(s[0], rest, sep);
      }
      assert s == [s[0]] + s[1..];
    }
  }

  /** A text without the separator is a single piece. */
  lemma {:induction false} SplitNoSeparator(s: string, sep: char)
    requires sep !in s
    ensures Split(s, sep) == [s]
    decreases |s|
  {
    if |s| > 0 {
      assert sep !in s[1..];
      SplitNoSeparator(s[1..], sep);
      assert s == [s[0]] + s[1..];
    }
  }

  /** A separator splits the text into the pieces before it and the pieces after it. */
  lemma {:induction false} SplitConcat(a: string, b: string, sep: char)
    ensures Split(a + [sep] + b, sep) == Split(a, sep) + Split(b, sep)
    decreases |a|
  {
    var s := a + [sep] + b;
    if |a| == 0 {
      assert s == [sep] + b;
      assert s[1..] == b;
    } else {
      assert s[0] == a[0];
      assert s[1..] == a[1..] + [sep] + b;
      SplitConcat(a[1..], b, sep);
    }
  }

  /** Splitting then joining is the identity on separator-free pieces. */
  lemma {:induction false} SplitJoin(parts: seq<string>, sep: char)
    requires |parts| >= 1
    requires forall i :: 0 <= i < |parts| ==> sep !in parts[i]
    ensures Split(Join(parts, sep), sep) == parts
    decreases |parts|
  {
    SplitNoSeparator(parts[0], sep);
    if |parts| > 1 {
      SplitJoin(parts[1..], sep);
      SplitConcat(parts[0], Join(parts[1..], sep), sep);
      assert parts == [parts[0]] + parts[1..];
    }
  }

  // ---------------------------------------------------------------------------
  // ASCII case
  // ---------------------------------------------------------------------------

  predicate IsUpperAscii(c: char) { 'A' <= c <= 'Z' }

  predicate IsLowerAscii(c: char) { 'a' <= c <= 'z' }

  predicate IsAsciiLetter(c: char) { IsUpperAscii(c) || IsLowerAscii(c) }

  /** `str.lower` on one character, restricted to the ASCII letters. */
  function LowerChar(c: char): (r: char)
    ensures !IsUpperAscii(r)
    ensures !IsUpperAscii(c) ==> r == c
    ensures IsUpperAscii(c) ==> IsLowerAscii(r) && r as int == c as int + 32
    ensures IsAsciiLetter(r) <==> IsAsciiLetter(c)
  {
    if IsUpperAscii(c) then (c as int - 'A' as int + 'a' as int) as char else c
  }

  /** Two characters that are identical, or the capital and small forms of one
      ASCII letter (the small form's code is the capital's plus 32). */
  predicate SameIgnoringCase(x: char, y: char)
  {
    || x == y
    || (IsUpperAscii(x) && y as int == x as int + 32)
    || (IsUpperAscii(y) && x as int == y as int + 32)
  }

  /** Two strings that agree position by position up to ASCII case. */
  predicate CaseVariant(a: string, b: string)
  {
    |a| == |b| && forall i :: 0 <= i < |a| ==> SameIgnoringCase(a[i], b[i])
  }

  /** `str.lower` restricted to ASCII: the one string without upper-case ASCII
      letters that agrees with `s` up to case. */
  function Lower(s: string): (r: string)
    ensures CaseVariant(s, r)
    ensures forall i :: 0 <= i < |r| ==> !IsUpperAscii(r[i])
  {
    seq(|s|, i requires 0 <= i < |s| => LowerChar(s[i]))
  }

  /** Lower-casing forgets exactly the ASCII case: case variants lower to the same
      string, and strings that lower to the same string are case variants. */
  lemma LowerCaseVariant(a: string, b: string)
    ensures CaseVariant(a, b) <==> Lower(a) == Lower(b)
  {
    var la, lb := Lower(a), Lower(b);
    if CaseVariant(a, b) {
      forall i | 0 <= i < |la|
        ensures la[i] == lb[i]
      {
        assert LowerChar(a[i]) == LowerChar(la[i]) == la[i];
        assert LowerChar(b[i]) == LowerChar(lb[i]) == lb[i];
      }
    }
    if la == lb {
      forall i | 0 <= i < |a|
        ensures SameIgnoringCase(a[i], b[i])
      {
        assert LowerChar(a[i]) == LowerChar(la[i]) == la[i];
        assert LowerChar(b[i]) == LowerChar(lb[i]) == lb[i];
      }
    }
  }

  /** Lower-casing leaves a string without upper-case ASCII letters unchanged. */
  lemma LowerOfLowerCase(s: string)
    requires forall i :: 0 <= i < |s| ==> !IsUpperAscii(s[i])
    ensures Lower(s) == s
  {
    LowerCaseVariant(s, s);
  }

  /** A character that is not a letter is fixed by case variation. */
  lemma CaseVariantKeepsNonLetter(a: string, b: string, i: int, c: char)
    requires CaseVariant(a, b) && 0 <= i < |a| && !IsAsciiLetter(c)
    ensures a[i] == c <==> b[i] == c
  {
    assert LowerChar(a[i]) == LowerChar(b[i]);
  }

  /** Case variants split on a non-letter into pieces that are case variants. */
  lemma {:induction false} SplitCaseVariant(a: string, b: string, sep: char)
    requires CaseVariant(a, b) && !IsAsciiLetter(sep)
    ensures |Split(a, sep)| == |Split(b, sep)|
    ensures forall i :: 0 <= i < |Split(a, sep)| ==> CaseVariant(Split(a, sep)[i], Split(b, sep)[i])
    decreases |a|
  {
    if |a| > 0 {
      CaseVariantKeepsNonLetter(a, b, 0, sep);
      assert CaseVariant(a[1..], b[1..]) by {
        forall i | 0 <= i < |a| - 1 ensures SameIgnoringCase(a[1..][i], b[1..][i]) {
          assert a[1..][i] == a[i + 1];
        }
      }
      SplitCaseVariant(a[1..], b[1..], sep);
      var ra, rb := Split(a[1..], sep), Split(b[1..], sep);
      if a[0] != sep {
        var ha, hb := [a[0]] + ra[0], [b[0]] + rb[0];
        assert CaseVariant(ha, hb) by {
          forall i | 0 <= i < |ha| ensures SameIgnoringCase(ha[i], hb[i]) {
            if i > 0 {
              assert ha[i] == ra[0][i - 1] && hb[i] == rb[0][i - 1];
            }
          }
        }
      }
    }
  }
}
