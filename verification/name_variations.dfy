/**
  `all_variations` of osler/core/utils.py: every string one edit away from a
  name, where the edit is never at index 0. For each position i in
  1..|name|-1 the generator emits one deletion, then for each letter of the
  ASCII lower-case alphabet the substitution at i and the insertion before
  i, and finally the name itself. Nothing is de-duplicated.
 */
module NameVariations {

  import opened Optional

  /** Python's `string.ascii_lowercase`. */
  const Alphabet: string := "abcdefghijklmnopqrstuvwxyz"

  /** Variants emitted per edited position: one deletion and 26 substitution/insertion pairs. */
  const PerPosition: nat := 53

  /** `name[:i] + name[i + 1:]` */
  function Delete(name: string, i: nat): (v: string)
    requires 1 <= i < |name|
    ensures |v| == |name| - 1
  {
    name[..i] + name[i + 1..]
  }

  /** `name[:i] + c + name[i + 1:]` */
  function Substitute(name: string, i: nat, c: char): (v: string)
    requires 1 <= i < |name|
    ensures |v| == |name|
  {
    name[..i] + [c] + name[i + 1..]
  }

  /** `name[:i] + c + name[i:]` */
  function Insert(name: string, i: nat, c: char): (v: string)
    requires 1 <= i < |name|
    ensures |v| == |name| + 1
  {
    name[..i] + [c] + name[i..]
  }

  /** `v` is what one edit at position `i` of `name` can give. */
  ghost predicate EditAt(name: string, i: nat, v: string)
    requires 1 <= i < |name|
  {
    || v == Delete(name, i)
    || exists c :: c in Alphabet && (v == Substitute(name, i, c) || v == Insert(name, i, c))
  }

  /**
    The neighbourhood the generator is meant to cover, stated without
    reference to how it is enumerated: the name itself, or one deletion,
    one substitution by a lower-case letter, or one insertion of a
    lower-case letter, at a position other than 0 and never at the end.
   */
  ghost predicate OneEdit(name: string, v: string) {
    v == name || exists i :: 1 <= i < |name| && EditAt(name, i, v)
  }

  /** The substitution/insertion pairs for the first `k` letters at position `i`, in emission order. */
  function LetterEdits(name: string, i: nat, k: nat): (r: seq<string>)
    requires 1 <= i < |name|
    requires k <= |Alphabet|
    ensures |r| == 2 * k
  {
    if k == 0 then []
    else LetterEdits(name, i, k - 1) + [Substitute(name, i, Alphabet[k - 1]), Insert(name, i, Alphabet[k - 1])]
  }

  /** Everything the inner loop body emits for position `i`. */
  function PositionEdits(name: string, i: nat): (r: seq<string>)
    requires 1 <= i < |name|
    ensures |r| == PerPosition
  {
    [Delete(name, i)] + LetterEdits(name, i, |Alphabet|)
  }

  /** What the outer loop has emitted once positions 1..n-1 are done. */
  function EditsBefore(name: string, n: nat): (r: seq<string>)
    requires n <= |name|
    ensures n >= 1 ==> |r| == (n - 1) * PerPosition
    ensures n == 0 ==> r == []
  {
    if n <= 1 then [] else EditsBefore(name, n - 1) + PositionEdits(name, n - 1)
  }

  /** The variations of a present name. */
  function Variations(name: string): (r: seq<string>)
    ensures |name| == 0 ==> r == []
    ensures |name| == 1 ==> r == [name]
    ensures |name| > 1 ==> |r| == (|name| - 1) * PerPosition + 1
    ensures |name| > 0 ==> r[|r| - 1] == name
  {
    if |name| == 0 then []
    else if |name| == 1 then [name]
    else EditsBefore(name, |name|) + [name]
  }

  /**
    `all_variations(name)`, with Python's `None` as `Option.None`: nothing
    for a missing or empty name, and otherwise exactly the name's one-edit
    neighbourhood, listed without removing repeats.
   */
  function AllVariations(name: Option<string>): (r: seq<string>)
    ensures forall v :: v in r <==> name.Some? && |name.value| > 0 && OneEdit(name.value, v)
    ensures name.Some? && |name.value| > 1 ==> |r| == (|name.value| - 1) * PerPosition + 1
  {
    match name
    case None => []
    case Some(s) =>
      var r := Variations(s);
      assert forall v :: v in r <==> |s| > 0 && OneEdit(s, v) by {
        forall v: string
          ensures v in r <==> |s| > 0 && OneEdit(s, v)
        {
          VariationsMembership(s, v);
        }
      }
      r
  }

  /**
    The Python loop nest as written: `all_vars` grows by appends, one
    deletion then 26 substitution/insertion pairs per position.
   */
  method ComputeAllVariations(name: Option<string>) returns (allVars: seq<string>)
    ensures allVars == AllVariations(name)
  {
    allVars := [];
    if name.None? || |name.value| == 0 {
      return;
    }
    var s := name.value;
    if |s| == 1 {
      allVars := allVars + [s];
      return;
    }
    for i := 1 to |s|
      invariant allVars == EditsBefore(s, i)
    {
      allVars := allVars + [Delete(s, i)];
      for k := 0 to |Alphabet|
        invariant allVars == EditsBefore(s, i) + [Delete(s, i)] + LetterEdits(s, i, k)
      {
        var c := Alphabet[k];
        allVars := allVars + [Substitute(s, i, c)];
        allVars := allVars + [Insert(s, i, c)];
      }
    }
    allVars := allVars + [s];
  }

  // ---------------------------------------------------------------------
  // Where each variant sits

  lemma {:induction false} LetterEditsAt(name: string, i: nat, k: nat, m: nat)
    requires 1 <= i < |name|
    requires m < k <= |Alphabet|
    ensures LetterEdits(name, i, k)[2 * m] == Substitute(name, i, Alphabet[m])
    ensures LetterEdits(name, i, k)[2 * m + 1] == Insert(name, i, Alphabet[m])
  {
    if m < k - 1 {
      LetterEditsAt(name, i, k - 1, m);
    }
  }

  lemma {:induction false} EditsBeforeAt(name: string, n: nat, i: nat, j: nat)
    requires 1 <= i < n <= |name|
    requires j < PerPosition
    ensures EditsBefore(name, n)[(i - 1) * PerPosition + j] == PositionEdits(name, i)[j]
  {
    if i < n - 1 {
      EditsBeforeAt(name, n - 1, i, j);
    }
  }

  /**
    The exact layout of the result: for position i (1 <= i < |name|) and the
    m-th letter, the deletion at index 53(i-1), the substitution at
    53(i-1)+1+2m, the insertion at 53(i-1)+2+2m, and the name last. With the
    length this fixes every element.
   */
  lemma VariationsLayout(name: string, i: nat, m: nat)
    requires 1 <= i < |name|
    requires m < |Alphabet|
    ensures Variations(name)[(i - 1) * PerPosition] == Delete(name, i)
    ensures Variations(name)[(i - 1) * PerPosition + 1 + 2 * m] == Substitute(name, i, Alphabet[m])
    ensures Variations(name)[(i - 1) * PerPosition + 2 + 2 * m] == Insert(name, i, Alphabet[m])
  {
    var n := |name|;
    var edits := EditsBefore(name, n);
    assert Variations(name) == edits + [name];
    var base := (i - 1) * PerPosition;
    assert base + PerPosition <= |edits| by {
      assert |edits| == (n - 1) * PerPosition;
    }
    EditsBeforeAt(name, n, i, 0);
    EditsBeforeAt(name, n, i, 1 + 2 * m);
    EditsBeforeAt(name, n, i, 2 + 2 * m);
    LetterEditsAt(name, i, |Alphabet|, m);
    assert PositionEdits(name, i)[1 + 2 * m] == LetterEdits(name, i, |Alphabet|)[2 * m];
    assert PositionEdits(name, i)[2 + 2 * m] == LetterEdits(name, i, |Alphabet|)[2 * m + 1];
  }

  // ---------------------------------------------------------------------
  // Membership: the result is exactly the one-edit neighbourhood

  lemma {:induction false} LetterEditsAreEdits(name: string, i: nat, k: nat, v: string)
    requires 1 <= i < |name|
    requires k <= |Alphabet|
    requires v in LetterEdits(name, i, k)
    ensures exists c :: c in Alphabet && (v == Substitute(name, i, c) || v == Insert(name, i, c))
  {
    var c := Alphabet[k - 1];
    if v !in [Substitute(name, i, c), Insert(name, i, c)] {
      LetterEditsAreEdits(name, i, k - 1, v);
    }
  }

  lemma {:induction false} EditsBeforeAreEdits(name: string, n: nat, v: string)
    requires n <= |name|
    requires v in EditsBefore(name, n)
    ensures exists i :: 1 <= i < n && EditAt(name, i, v)
  {
    if v in PositionEdits(name, n - 1) {
      if v != Delete(name, n - 1) {
        LetterEditsAreEdits(name, n - 1, |Alphabet|, v);
      }
      assert EditAt(name, n - 1, v);
    } else {
      EditsBeforeAreEdits(name, n - 1, v);
    }
  }

  /** Every generated string is within one edit of the name. */
  lemma VariationsAreOneEdit(name: string, v: string)
    requires v in Variations(name)
    ensures OneEdit(name, v)
  {
    if |name| > 1 && v != name {
      EditsBeforeAreEdits(name, |name|, v);
    }
  }

  /** Every string within one edit of a non-empty name is generated. */
  lemma OneEditIsGenerated(name: string, v: string)
    requires |name| > 0
    requires OneEdit(name, v)
    ensures v in Variations(name)
  {
    var r := Variations(name);
    if v == name {
      assert r[|r| - 1] == name;
    } else {
      var i :| 1 <= i < |name| && EditAt(name, i, v);
      if v == Delete(name, i) {
        VariationsLayout(name, i, 0);
        assert r[(i - 1) * PerPosition] == v;
      } else {
        var c :| c in Alphabet && (v == Substitute(name, i, c) || v == Insert(name, i, c));
        var m :| 0 <= m < |Alphabet| && Alphabet[m] == c;
        VariationsLayout(name, i, m);
        if v == Substitute(name, i, c) {
          assert r[(i - 1) * PerPosition + 1 + 2 * m] == v;
        } else {
          assert r[(i - 1) * PerPosition + 2 + 2 * m] == v;
        }
      }
    }
  }

  /** The variations of a name are nothing for an empty name and otherwise exactly its one-edit neighbourhood. */
  lemma VariationsMembership(name: string, v: string)
    ensures v in Variations(name) <==> |name| > 0 && OneEdit(name, v)
  {
    if v in Variations(name) {
      VariationsAreOneEdit(name, v);
    }
    if |name| > 0 && OneEdit(name, v) {
      OneEditIsGenerated(name, v);
    }
  }

  // ---------------------------------------------------------------------
  // Shape of the variants

  /**
    Every variant keeps the first character, has length |name|-1, |name| or
    |name|+1, and a variant one longer than the name ends with the name's
    last character, because nothing is ever inserted after the end.
   */
  lemma VariantShape(name: string, v: string)
    requires |name| > 1
    requires v in Variations(name)
    ensures |v| > 0 && v[0] == name[0]
    ensures |name| - 1 <= |v| <= |name| + 1
    ensures |v| == |name| + 1 ==> v[|v| - 1] == name[|name| - 1]
  {
    VariationsAreOneEdit(name, v);
    if v != name {
      var i :| 1 <= i < |name| && EditAt(name, i, v);
      if v != Delete(name, i) {
        var c :| c in Alphabet && (v == Substitute(name, i, c) || v == Insert(name, i, c));
        if v == Insert(name, i, c) {
          assert v[|v| - 1] == name[i..][|name| - i - 1];
        }
      }
    }
  }

  /** A single character has no position other than 0 to edit, so only the name itself is a variant. */
  lemma SingleCharacterOnlyItself(name: string, v: string)
    requires |name| == 1
    ensures OneEdit(name, v) <==> v == name
  {
  }

  // ---------------------------------------------------------------------
  // Concrete instances

  /** The deletions, substitutions and the name itself for "ben". */
  lemma BenVariations()
    ensures "be" in Variations("ben") && "bn" in Variations("ben")
    ensures "ban" in Variations("ben") && "bon" in Variations("ben")
    ensures "ben" in Variations("ben")
    ensures |Variations("ben")| == 107
  {
    VariationsLayout("ben", 1, 0);
    VariationsLayout("ben", 1, 14);
    VariationsLayout("ben", 2, 0);
    assert Alphabet[0] == 'a' && Alphabet[14] == 'o';
    assert Delete("ben", 1) == "bn";
    assert Delete("ben", 2) == "be";
    assert Substitute("ben", 1, 'a') == "ban";
    assert Substitute("ben", 1, 'o') == "bon";
  }

  /** Duplicates are kept: both deletions of "Ann" give "An". */
  lemma DuplicatesKept()
    ensures Variations("Ann")[0] == "An" && Variations("Ann")[PerPosition] == "An"
  {
    VariationsLayout("Ann", 1, 0);
    VariationsLayout("Ann", 2, 0);
    assert Delete("Ann", 1) == "An";
    assert Delete("Ann", 2) == "An";
  }

}
