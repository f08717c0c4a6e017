/** The POSIX flavour of Node's `path.extname`, which the service applies to the
    caller-supplied file name before the extension denylist is consulted.

    The extension of a path is taken from its last component once trailing
    separators are dropped: it runs from the last dot of that component to its
    end. A component without a dot, one whose only dot is its first character
    (a "dot file" such as `.bashrc`) and the component `..` have no extension. */
module NodePath {
  import opened Wrappers
  import opened Text

  const SEP: char := '/'
  const DOT: char := '.'

  /** Position of the last occurrence of `c` in `s`, if any. */
  function LastIndexOf(s: string, c: char): (r: Option<nat>)
    ensures r.None? <==> c !in s
    ensures r.Some? ==> r.value < |s| && s[r.value] == c && c !in s[r.value + 1..]
  {
    if |s| == 0 then None
    else if s[|s| - 1] == c then Some(|s| - 1)
    else
      var r := LastIndexOf(s[..|s| - 1], c);
      assert s == s[..|s| - 1] + [s[|s| - 1]];
      if r.Some? then
        assert s[r.value + 1..] == s[..|s| - 1][r.value + 1..] + [s[|s| - 1]];
        r
      else r
  }

  /** The last occurrence of `c` is the only one with no `c` after it. */
  lemma LastIndexOfUnique(s: string, c: char, k: nat)
    requires k < |s| && s[k] == c && c !in s[k + 1..]
    ensures LastIndexOf(s, c) == Some(k)
  {
    assert s[k] in s;
  }

  /** Characters appended after the last `c` do not move it. */
  lemma LastIndexOfAppend(s: string, e: string, c: char)
    requires c !in e
    ensures LastIndexOf(s + e, c) == LastIndexOf(s, c)
  {
    var r := LastIndexOf(s, c);
    if r.Some? {
      assert (s + e)[r.value + 1..] == s[r.value + 1..] + e;
      LastIndexOfUnique(s + e, c, r.value);
    } else {
      assert c !in s + e;
    }
  }

  /** Lowering a string does not move a non-letter. */
  lemma LowerKeepsLastIndex(s: string, c: char)
    requires !IsLetter(c)
    ensures LastIndexOf(ToLower(s), c) == LastIndexOf(s, c)
  {
    LowerKeepsAbsence(s, c);
    var r := LastIndexOf(s, c);
    if r.Some? {
      var k := r.value;
      LowerSlice(s, k + 1, |s|);
      LowerKeepsAbsence(s[k + 1..], c);
      LastIndexOfUnique(ToLower(s), c, k);
    }
  }

  /** `p` without its trailing separators. */
  function StripTrailingSeparators(p: string): (r: string)
    ensures r <= p
    ensures r == [] || r[|r| - 1] != SEP
    ensures forall i :: |r| <= i < |p| ==> p[i] == SEP
  {
    if |p| > 0 && p[|p| - 1] == SEP then StripTrailingSeparators(p[..|p| - 1]) else p
  }

  /** `r` is the text after the last `c` in `s`: a suffix of `s` without `c`
      that is either all of `s` or starts right after a `c`. */
  predicate IsTextAfterLast(r: string, s: string, c: char) {
    && c !in r
    && |r| <= |s| && r == s[|s| - |r|..]
    && (|r| == |s| || s[|s| - |r| - 1] == c)
  }

  /** The part of `s` after the last `c`, or all of `s` when there is no `c`. */
  function AfterLast(s: string, c: char): (r: string)
    ensures IsTextAfterLast(r, s, c)
    ensures c !in s ==> r == s
    ensures c in s ==> |r| < |s|
  {
    match LastIndexOf(s, c)
    case None => s
    case Some(i) => s[i + 1..]
  }

  /** Lowering commutes with cutting after the last non-letter. */
  lemma LowerAfterLastCommute(s: string, c: char)
    requires !IsLetter(c)
    ensures AfterLast(ToLower(s), c) == ToLower(AfterLast(s, c))
  {
    LowerKeepsLastIndex(s, c);
    match LastIndexOf(s, c)
    case None =>
    case Some(i) =>
      LowerSlice(s, i + 1, |s|);
      assert AfterLast(s, c) == s[i + 1..];
      assert AfterLast(ToLower(s), c) == ToLower(s)[i + 1..];
  }

  /** The last component of `p`, ignoring trailing separators. */
  function Basename(p: string): (r: string)
    ensures SEP !in r
    ensures |r| <= |p|
    ensures SEP !in p ==> r == p
    ensures IsTextAfterLast(r, StripTrailingSeparators(p), SEP)
  {
    StripWithoutSeparators(p);
    AfterLast(StripTrailingSeparators(p), SEP)
  }

  /** A path without separators has none to strip. */
  lemma StripWithoutSeparators(p: string)
    ensures SEP !in p ==> StripTrailingSeparators(p) == p
  {
    if SEP !in p && |p| > 0 {
      assert p[|p| - 1] in p;
    }
  }

  /** A prefix only contains characters of the whole. */
  lemma PrefixKeepsCharacters(s: string, k: nat)
    requires k <= |s|
    ensures forall c :: c in s[..k] ==> c in s
  {
    forall c | c in s[..k]
      ensures c in s
    {
      var j :| 0 <= j < k && s[..k][j] == c;
      assert s[j] == c;
    }
  }

  /** A suffix only contains characters of the whole. */
  lemma SuffixKeepsCharacters(s: string, k: nat)
    requires k <= |s|
    ensures forall c :: c in s[k..] ==> c in s
  {
    forall c | c in s[k..]
      ensures c in s
    {
      var j :| 0 <= j < |s[k..]| && s[k..][j] == c;
      assert s[k + j] == c;
    }
  }

  /** The extension of one path component `b` (no separators in it). */
  function ComponentExtension(b: string): (r: string)
    ensures r == [] || (r[0] == DOT && DOT !in r[1..])
    ensures r != [] ==> |r| < |b| && r == b[|b| - |r|..]
    ensures DOT !in b ==> r == []
    ensures r == [] <==> (DOT !in b || (b[0] == DOT && DOT !in b[1..]) || b == "..")
  {
    match LastIndexOf(b, DOT)
    case None => []
    case Some(d) => if d == 0 || b == ".." then [] else b[d..]
  }

  /** `path.extname(p)`: empty, or a dot followed by dot-free, separator-free
      characters that end the last component of `p`. */
  function ExtName(p: string): (r: string)
    ensures r == [] || (r[0] == DOT && DOT !in r[1..] && SEP !in r)
    ensures DOT !in p ==> r == []
    ensures var b := Basename(p);
      r == [] <==> (DOT !in b || (b[0] == DOT && DOT !in b[1..]) || b == "..")
    ensures r != [] ==> |r| < |Basename(p)| && r == Basename(p)[|Basename(p)| - |r|..]
  {
    var b := Basename(p);
    ExtensionCharacters(p);
    ComponentExtension(b)
  }

  /** The extension of `p` contains no separator, and no dot unless `p` does. */
  lemma ExtensionCharacters(p: string)
    ensures SEP !in ComponentExtension(Basename(p))
    ensures DOT !in p ==> ComponentExtension(Basename(p)) == []
  {
    var q := StripTrailingSeparators(p);
    var b := Basename(p);
    var r := ComponentExtension(b);
    SuffixKeepsCharacters(b, |b| - |r|);
    assert SEP !in r;
    if DOT !in p {
      SuffixKeepsCharacters(q, |q| - |b|);
      PrefixKeepsCharacters(p, |q|);
      assert DOT !in b;
    }
  }

  /** Appending separator-free characters to a name that does not end in a
      separator extends its last component by those characters. */
  lemma BasenameOfAppend(stem: string, e: string)
    requires |stem| > 0 && stem[|stem| - 1] != SEP
    requires |e| > 0 && SEP !in e
    ensures Basename(stem + e) == Basename(stem) + e
    ensures |Basename(stem)| > 0
  {
    var s := stem + e;
    assert s[|s| - 1] == e[|e| - 1];
    assert StripTrailingSeparators(s) == s;
    assert StripTrailingSeparators(stem) == stem;
    LastIndexOfAppend(stem, e, SEP);
    match LastIndexOf(stem, SEP)
    case None =>
    case Some(i) => assert s[i + 1..] == stem[i + 1..] + e;
  }

  /** A non-empty stem that does not end in a separator, followed by a suffix
      that starts with the only dot it contains, has exactly that suffix as its
      extension: `ExtName("virus" + ".EXE") == ".EXE"`. */
  lemma ExtNameOfSuffix(stem: string, e: string)
    requires |stem| > 0 && stem[|stem| - 1] != SEP
    requires |e| >= 2 && e[0] == DOT && DOT !in e[1..] && SEP !in e
    ensures ExtName(stem + e) == e
  {
    BasenameOfAppend(stem, e);
    ComponentExtensionOfSuffix(Basename(stem), e);
  }

  /** A non-empty component followed by a suffix that starts with the only dot
      it contains has that suffix as its extension. */
  lemma ComponentExtensionOfSuffix(pre: string, e: string)
    requires |pre| > 0
    requires |e| >= 2 && e[0] == DOT && DOT !in e[1..]
    ensures ComponentExtension(pre + e) == e
  {
    var b := pre + e;
    assert b[|pre| + 1..] == e[1..];
    LastIndexOfUnique(b, DOT, |pre|);
    assert b[|pre|..] == e;
  }

  /** A name without separators whose only dot is its first character (a dot
      file) has no extension. */
  lemma DotFileHasNoExtension(p: string)
    requires |p| > 0 && p[0] == DOT && DOT !in p[1..] && SEP !in p
    ensures ExtName(p) == []
  {
    LastIndexOfUnique(p, DOT, 0);
  }

  /** Trailing separators are stripped the same way before and after lowering. */
  lemma {:induction false} LowerStripCommute(p: string)
    ensures StripTrailingSeparators(ToLower(p)) == ToLower(StripTrailingSeparators(p))
    decreases |p|
  {
    var q := ToLower(p);
    if |p| > 0 {
      LowerCharKeepsNonLetter(p[|p| - 1], SEP);
      if p[|p| - 1] == SEP {
        LowerSlice(p, 0, |p| - 1);
        assert p[0..|p| - 1] == p[..|p| - 1];
        assert q[0..|p| - 1] == q[..|q| - 1];
        LowerStripCommute(p[..|p| - 1]);
      }
    }
  }

  /** The last component of a lowered path is the lowered last component. */
  lemma LowerBasenameCommute(p: string)
    ensures Basename(ToLower(p)) == ToLower(Basename(p))
  {
    LowerStripCommute(p);
    LowerAfterLastCommute(StripTrailingSeparators(p), SEP);
  }

  /** Lowering a component and then taking its extension lowers the extension. */
  lemma LowerComponentExtensionCommute(b: string)
    ensures ComponentExtension(ToLower(b)) == ToLower(ComponentExtension(b))
  {
    var lb := ToLower(b);
    LowerKeepsLastIndex(b, DOT);
    var r := LastIndexOf(b, DOT);
    assert LastIndexOf(lb, DOT) == r;
    if r.None? || r.value == 0 {
      assert ComponentExtension(lb) == [] == ComponentExtension(b);
    } else {
      LowerIsParent(b);
      if b == ".." {
        assert ComponentExtension(lb) == [] == ComponentExtension(b);
      } else {
        LowerSlice(b, r.value, |b|);
        assert ComponentExtension(lb) == lb[r.value..];
        assert ComponentExtension(b) == b[r.value..];
      }
    }
  }

  /** Only `..` lowers to `..`. */
  lemma LowerIsParent(b: string)
    ensures ToLower(b) == ".." <==> b == ".."
  {
    if ToLower(b) == ".." {
      LowerCharKeepsNonLetter(b[0], DOT);
      LowerCharKeepsNonLetter(b[1], DOT);
      assert b == [b[0], b[1]];
    }
  }

  /** The extension of a lowered name is the lowered extension: lowering the
      whole name first or only its extension gives the same text. */
  lemma ExtNameCommutesWithLower(p: string)
    ensures ExtName(ToLower(p)) == ToLower(ExtName(p))
  {
    LowerBasenameCommute(p);
    LowerComponentExtensionCommute(Basename(p));
  }
}
