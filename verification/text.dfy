/**
  The parts of Python's string behaviour the name search relies on:
  `str.capitalize` and a case-insensitive prefix test (the ORM's
  `istartswith` lookup). Case mapping is modelled for the ASCII letters
  only; every other character has no case here.
 */
module Text {

  predicate IsUpper(c: char) { 'A' <= c <= 'Z' }

  predicate IsLower(c: char) { 'a' <= c <= 'z' }

  /** Case folding of one character: upper-case ASCII letters become lower-case. */
  function ToLower(c: char): (l: char)
    ensures !IsUpper(l)
    ensures IsUpper(c) || l == c
  {
    if IsUpper(c) then (c as int + 32) as char else c
  }

  /** Upper-casing of one character; it keeps the character's case-folded form. */
  function ToUpper(c: char): (u: char)
    ensures !IsLower(u)
    ensures ToLower(u) == ToLower(c)
  {
    if IsLower(c) then (c as int - 32) as char else c
  }

  /** The case-folded form of a string. */
  function Lower(s: string): (r: string)
    ensures |r| == |s|
    ensures forall i :: 0 <= i < |r| ==> r[i] == ToLower(s[i])
  {
    seq(|s|, i requires 0 <= i < |s| => ToLower(s[i]))
  }

  /** Two strings that differ only in letter case. */
  predicate EqualIgnoringCase(a: string, b: string) {
    Lower(a) == Lower(b)
  }

  /** The shape `str.capitalize` produces: no lower-case letter first, no upper-case letter after. */
  predicate IsCapitalized(s: string) {
    (|s| > 0 ==> !IsLower(s[0])) && forall i :: 1 <= i < |s| ==> !IsUpper(s[i])
  }

  /**
    Python's `str.capitalize`: the first character upper-cased, all the
    others lower-cased. The result is the one capitalised string that
    equals `s` up to letter case.
   */
  function Capitalize(s: string): (r: string)
    ensures |r| == |s|
    ensures IsCapitalized(r)
    ensures EqualIgnoringCase(r, s)
  {
    if |s| == 0 then "" else [ToUpper(s[0])] + Lower(s[1..])
  }

  /** Case-insensitive prefix test, the meaning of the `istartswith` lookup. */
  predicate IStartsWith(s: string, prefix: string) {
    |prefix| <= |s| && EqualIgnoringCase(s[..|prefix|], prefix)
  }

  /** Capitalising looks at the letters only up to case: inputs equal up to case capitalise alike. */
  lemma CapitalizeIgnoresCase(a: string, b: string)
    requires EqualIgnoringCase(a, b)
    ensures Capitalize(a) == Capitalize(b)
  {
    if |a| > 0 {
      assert ToLower(a[0]) == ToLower(b[0]) by {
        assert Lower(a)[0] == Lower(b)[0];
      }
      assert ToUpper(a[0]) == ToUpper(b[0]) by {
        UpperDependsOnFoldedForm(a[0], b[0]);
      }
      assert Lower(a[1..]) == Lower(b[1..]) by {
        forall i | 0 <= i < |a| - 1
          ensures Lower(a[1..])[i] == Lower(b[1..])[i]
        {
          assert Lower(a)[i + 1] == Lower(b)[i + 1];
        }
      }
    }
  }

  /** A capitalised string is its own capitalisation, so capitalising twice is capitalising once. */
  lemma CapitalizeIdempotent(s: string)
    ensures Capitalize(Capitalize(s)) == Capitalize(s)
  {
    var c := Capitalize(s);
    CapitalizeIgnoresCase(c, s);
  }

  lemma UpperDependsOnFoldedForm(x: char, y: char)
    requires ToLower(x) == ToLower(y)
    ensures ToUpper(x) == ToUpper(y)
  {
  }

}
