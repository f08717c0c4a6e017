/** Case mapping of the characters that occur in file names, as used before an
    extension is compared with the denylist. */
module Text {

  predicate IsUpper(c: char) {
    'A' <= c <= 'Z'
  }

  predicate IsLetter(c: char) {
    'A' <= c <= 'Z' || 'a' <= c <= 'z'
  }

  /** Lower-case counterpart of `c`: an upper-case letter becomes its lower-case
      letter, every other character is left alone. */
  function LowerChar(c: char): (r: char)
    ensures !IsUpper(r)
    ensures IsLetter(r) <==> IsLetter(c)
    ensures !IsUpper(c) ==> r == c
    ensures IsUpper(c) ==> r as int - 'a' as int == c as int - 'A' as int
  {
    if IsUpper(c) then (c as int + ('a' as int - 'A' as int)) as char else c
  }

  /** `s.toLowerCase()`: the same length, every character lowered. */
  function ToLower(s: string): (r: string)
    ensures |r| == |s|
    ensures forall i :: 0 <= i < |s| ==> r[i] == LowerChar(s[i])
  {
    if s == [] then [] else [LowerChar(s[0])] + ToLower(s[1..])
  }

  /** Lowering never produces a character that is not a letter unless that very
      character was there before. */
  lemma LowerCharKeepsNonLetter(x: char, c: char)
    requires !IsLetter(c)
    ensures LowerChar(x) == c <==> x == c
  {
  }

  /** Lowering commutes with taking a slice. */
  lemma LowerSlice(s: string, i: nat, j: nat)
    requires i <= j <= |s|
    ensures ToLower(s[i..j]) == ToLower(s)[i..j]
  {
    var t := s[i..j];
    var a, l := ToLower(t), ToLower(s);
    forall k | 0 <= k < |t|
      ensures a[k] == l[i + k]
    {
      assert t[k] == s[i + k];
    }
    assert a == l[i..j];
  }

  /** A lowered string contains a non-letter exactly where the original did. */
  lemma LowerKeepsAbsence(s: string, c: char)
    requires !IsLetter(c)
    ensures c in ToLower(s) <==> c in s
  {
    var t := ToLower(s);
    if c in t {
      var j :| 0 <= j < |t| && t[j] == c;
      LowerCharKeepsNonLetter(s[j], c);
    }
    if c in s {
      var j :| 0 <= j < |s| && s[j] == c;
      assert t[j] == c;
    }
  }
}
