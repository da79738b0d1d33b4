/**
 The two pieces of `pathlib.PurePosixPath` the classifier reads: `name`, the final
 path component, and `suffix`, the extension of that component.
 */
module PathSuffix {
  import opened Text

  /** Components pathlib drops when it parses a path: empty ones (from "//" or a
      trailing "/") and ".". */
  predicate Discarded(p: string) { p == "" || p == "." }

  /** The last component of `parts` that is not discarded; "" when every
      component is discarded. */
  function LastComponent(parts: seq<string>): (n: string)
    ensures n == "" || n in parts
    ensures n != "."
    ensures n == "" <==> forall j :: 0 <= j < |parts| ==> Discarded(parts[j])
    decreases |parts|
  {
    if |parts| == 0 then ""
    else
      var p := parts[|parts| - 1];
      if Discarded(p) then
        var n := LastComponent(parts[..|parts| - 1]);
        assert forall j :: 0 <= j < |parts| - 1 ==> parts[..|parts| - 1][j] == parts[j];
        n
      else p
  }

  /** The component chosen is the last one kept: a kept component followed only by
      discarded ones is the answer. */
  lemma {:induction false} LastComponentIsLast(parts: seq<string>, k: int)
    requires 0 <= k < |parts| && !Discarded(parts[k])
    requires forall j :: k < j < |parts| ==> Discarded(parts[j])
    ensures LastComponent(parts) == parts[k]
    decreases |parts|
  {
    if k < |parts| - 1 {
      var init := parts[..|parts| - 1];
      assert forall j :: k < j < |init| ==> init[j] == parts[j];
      LastComponentIsLast(init, k);
    }
  }

  /** `Path(path).name`: the final component of a '/'-separated path, after
      pathlib drops empty and "." components. */
  function Name(path: string): (n: string)
    ensures '/' !in n
    ensures n != "."
    ensures |n| <= |path|
    ensures n == "" <==> forall j :: 0 <= j < |Split(path, '/')| ==> Discarded(Split(path, '/')[j])
  {
    var parts := Split(path, '/');
    var n := LastComponent(parts);
    assert n != "" ==> |n| <= |path| by {
      if n != "" {
        JoinSplit(path, '/');
        var k :| 0 <= k < |parts| && parts[k] == n;
        JoinedPartLength(parts, k, '/');
      }
    }
    n
  }

  lemma {:induction false} JoinedPartLength(parts: seq<string>, k: int, sep: char)
    requires 0 <= k < |parts|
    ensures |parts[k]| <= |Join(parts, sep)|
    decreases |parts|
  {
    if k > 0 {
      JoinedPartLength(parts[1..], k - 1, sep);
    }
  }

  /** Python's `s.rfind('.')`: the index of the last dot, or -1 when there is none. */
  function LastDot(s: string): (i: int)
    ensures -1 <= i < |s|
    ensures i >= 0 ==> s[i] == '.'
    ensures forall j :: i < j < |s| ==> s[j] != '.'
    decreases |s|
  {
    if |s| == 0 then -1
    else if s[|s| - 1] == '.' then |s| - 1
    else LastDot(s[..|s| - 1])
  }

  /** When a name has no suffix: it is empty, ends with a dot, or its only dot
      (if any) is the leading one of a dotfile. */
  predicate HasNoSuffix(name: string)
  {
    |name| == 0 || name[|name| - 1] == '.' || '.' !in name[1..]
  }

  /** `PurePath.suffix` of a final component: the text from its last dot, provided
      that dot is neither the first nor the last character; "" otherwise. */
  function Suffix(name: string): (x: string)
    ensures x == "" <==> HasNoSuffix(name)
    ensures x != "" ==>
              && 2 <= |x| < |name|
              && x == name[|name| - |x|..]
              && x[0] == '.'
              && '.' !in x[1..]
  {
    var i := LastDot(name);
    if 0 < i < |name| - 1 then
      assert name[i..][0] == '.';
      name[i..]
    else
      assert HasNoSuffix(name) by {
        if i == -1 {
          assert forall j :: 1 <= j < |name| ==> name[1..][j - 1] == name[j];
        } else if i == 0 {
          assert forall j :: 1 <= j < |name| ==> name[1..][j - 1] == name[j];
        }
      }
      ""
  }

  // ---------------------------------------------------------------------------
  // Structure lemmas
  // ---------------------------------------------------------------------------

  /** Directories in front of the final component play no part in the name. */
  lemma NameOfChild(dir: string, leaf: string)
    requires '/' !in leaf && leaf != "" && leaf != "."
    ensures Name(leaf) == leaf
    ensures Name(dir + "/" + leaf) == leaf
  {
    SplitNoSeparator(leaf, '/');
    SplitConcat(dir, leaf, '/');
    assert dir + "/" + leaf == dir + ['/'] + leaf;
    var parts := Split(dir, '/') + [leaf];
    assert parts[..|parts| - 1] == Split(dir, '/');
  }

  /** A trailing separator, or a trailing "/.", does not change the name: pathlib
      drops the empty or "." component after it. */
  lemma TrailingSeparatorIgnored(path: string, t: string)
    requires Discarded(t)
    ensures Name(path + "/" + t) == Name(path)
  {
    SplitConcat(path, t, '/');
    assert path + "/" + t == path + ['/'] + t;
    SplitNoSeparator(t, '/');
    var parts := Split(path, '/') + [t];
    assert parts[..|parts| - 1] == Split(path, '/');
  }

  /** The suffix of `stem + ext` is `ext` when `ext` is a dot followed by at least
      one dot-free character and the stem is not empty, whatever dots the stem holds. */
  lemma SuffixOfStem(stem: string, ext: string)
    requires |stem| >= 1
    requires |ext| >= 2 && ext[0] == '.' && '.' !in ext[1..]
    ensures Suffix(stem + ext) == ext
  {
    var s := stem + ext;
    assert s[|stem|] == '.';
    forall j | |stem| < j < |s| ensures s[j] != '.' {
      assert s[j] == ext[1..][j - |stem| - 1];
    }
    assert LastDot(s) == |stem|;
    assert s[|stem|..] == ext;
  }

  /** Case variation changes neither where the dots are nor where the slashes are. */
  lemma {:induction false} LastDotCaseVariant(a: string, b: string)
    requires CaseVariant(a, b)
    ensures LastDot(a) == LastDot(b)
    decreases |a|
  {
    if |a| > 0 {
      CaseVariantKeepsNonLetter(a, b, |a| - 1, '.');
      assert CaseVariant(a[..|a| - 1], b[..|b| - 1]);
      LastDotCaseVariant(a[..|a| - 1], b[..|b| - 1]);
    }
  }

  lemma {:induction false} LastComponentCaseVariant(pa: seq<string>, pb: seq<string>)
    requires |pa| == |pb|
    requires forall i :: 0 <= i < |pa| ==> CaseVariant(pa[i], pb[i])
    ensures CaseVariant(LastComponent(pa), LastComponent(pb))
    decreases |pa|
  {
    if |pa| > 0 {
      var a, b := pa[|pa| - 1], pb[|pb| - 1];
      assert CaseVariant(a, b);
      assert a == "." <==> b == "." by {
        if |a| == 1 { CaseVariantKeepsNonLetter(a, b, 0, '.'); }
      }
      LastComponentCaseVariant(pa[..|pa| - 1], pb[..|pb| - 1]);
    }
  }

  lemma NameCaseVariant(a: string, b: string)
    requires CaseVariant(a, b)
    ensures CaseVariant(Name(a), Name(b))
  {
    SplitCaseVariant(a, b, '/');
    LastComponentCaseVariant(Split(a, '/'), Split(b, '/'));
  }

  lemma SuffixCaseVariant(a: string, b: string)
    requires CaseVariant(a, b)
    ensures CaseVariant(Suffix(a), Suffix(b))
  {
    LastDotCaseVariant(a, b);
    var i := LastDot(a);
    if 0 < i < |a| - 1 {
      forall j | 0 <= j < |a| - i ensures SameIgnoringCase(a[i..][j], b[i..][j]) {
        assert a[i..][j] == a[i + j] && b[i..][j] == b[i + j];
      }
    }
  }
}
