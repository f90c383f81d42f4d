/**
  `return_duplicates` of osler/core/utils.py: the fuzzy search for patients
  who may already be registered under a mistyped or abbreviated name. The
  ORM query over the patient table is modelled as an order-preserving
  filter over a sequence of patients.
 */
module Duplicates {

  import opened Optional
  import opened Text
  import opened NameVariations

  /** The name fields of a stored patient, the only ones the query looks at. */
  datatype Patient = Patient(firstName: string, lastName: string)

  /**
    The query's condition: `(first_name__in=firstVars | first_name__istartswith=firstCap)
    & last_name__in=lastVars`. Membership is exact (case-sensitive) matching.
   */
  predicate IsCandidate(p: Patient, firstVars: seq<string>, firstCap: string, lastVars: seq<string>) {
    (p.firstName in firstVars || IStartsWith(p.firstName, firstCap)) && p.lastName in lastVars
  }

  /** The filter the ORM performs: the patients meeting the condition, in store order, each as often as stored. */
  function SelectCandidates(patients: seq<Patient>, firstVars: seq<string>, firstCap: string, lastVars: seq<string>): (r: seq<Patient>)
    ensures forall p :: multiset(r)[p] == if IsCandidate(p, firstVars, firstCap, lastVars) then multiset(patients)[p] else 0
    ensures forall p :: p in r <==> p in patients && IsCandidate(p, firstVars, firstCap, lastVars)
  {
    if |patients| == 0 then []
    else
      var rest := SelectCandidates(patients[1..], firstVars, firstCap, lastVars);
      assert patients == [patients[0]] + patients[1..];
      if IsCandidate(patients[0], firstVars, firstCap, lastVars) then [patients[0]] + rest else rest
  }

  /**
    The intended meaning of a match, stated over the one-edit neighbourhood
    rather than the generated lists: the first name is within one edit of
    the capitalised first input or starts with it (ignoring case), and the
    last name is within one edit of the capitalised last input.
   */
  ghost predicate LikelyDuplicate(p: Patient, firstNameStr: string, lastNameStr: string) {
    && (OneEdit(Capitalize(firstNameStr), p.firstName) || IStartsWith(p.firstName, Capitalize(firstNameStr)))
    && OneEdit(Capitalize(lastNameStr), p.lastName)
  }

  /**
    `return_duplicates(first_name_str, last_name_str)` against the patient
    store `patients`. `None` is the bare `return` taken when either
    variation list is empty, which happens exactly when that input is empty.
   */
  function ReturnDuplicates(firstNameStr: string, lastNameStr: string, patients: seq<Patient>): (r: Option<seq<Patient>>)
    ensures r.None? <==> |firstNameStr| == 0 || |lastNameStr| == 0
    ensures r.Some? ==> forall p :: p in r.value <==> p in patients && LikelyDuplicate(p, firstNameStr, lastNameStr)
    ensures r.Some? ==> forall p :: multiset(r.value)[p] == if LikelyDuplicate(p, firstNameStr, lastNameStr) then multiset(patients)[p] else 0
  {
    var firstCap := Capitalize(firstNameStr);
    var firstNameVar := AllVariations(Some(firstCap));
    var lastNameVar := AllVariations(Some(Capitalize(lastNameStr)));
    if |firstNameVar| == 0 || |lastNameVar| == 0 then None
    else
      var r := SelectCandidates(patients, firstNameVar, firstCap, lastNameVar);
      assert forall p :: IsCandidate(p, firstNameVar, firstCap, lastNameVar) <==> LikelyDuplicate(p, firstNameStr, lastNameStr) by {
        forall p: Patient
          ensures IsCandidate(p, firstNameVar, firstCap, lastNameVar) <==> LikelyDuplicate(p, firstNameStr, lastNameStr)
        {
        }
      }
      Some(r)
  }

  /** A patient stored under exactly the capitalised inputs is always reported. */
  lemma ExactNameAlwaysFound(firstNameStr: string, lastNameStr: string, patients: seq<Patient>, p: Patient)
    requires |firstNameStr| > 0 && |lastNameStr| > 0
    requires p in patients
    requires p.firstName == Capitalize(firstNameStr) && p.lastName == Capitalize(lastNameStr)
    ensures ReturnDuplicates(firstNameStr, lastNameStr, patients).Some?
    ensures p in ReturnDuplicates(firstNameStr, lastNameStr, patients).value
  {
    assert LikelyDuplicate(p, firstNameStr, lastNameStr);
  }

  /** An abbreviation: a stored first name that extends the typed one (up to case) is reported when the last name matches. */
  lemma AbbreviationFound(firstNameStr: string, lastNameStr: string, patients: seq<Patient>, p: Patient)
    requires |firstNameStr| > 0 && |lastNameStr| > 0
    requires p in patients
    requires IStartsWith(p.firstName, Capitalize(firstNameStr)) && p.lastName == Capitalize(lastNameStr)
    ensures p in ReturnDuplicates(firstNameStr, lastNameStr, patients).value
  {
    assert LikelyDuplicate(p, firstNameStr, lastNameStr);
  }

  /** The search does not depend on how the inputs are capitalised. */
  lemma ReturnDuplicatesIgnoresInputCase(first1: string, last1: string, first2: string, last2: string, patients: seq<Patient>)
    requires EqualIgnoringCase(first1, first2) && EqualIgnoringCase(last1, last2)
    ensures ReturnDuplicates(first1, last1, patients) == ReturnDuplicates(first2, last2, patients)
  {
    CapitalizeIgnoresCase(first1, first2);
    CapitalizeIgnoresCase(last1, last2);
  }

  /** The filter keeps store order: filtering a concatenation concatenates the filtered parts. */
  lemma {:induction false} SelectCandidatesAppend(a: seq<Patient>, b: seq<Patient>, firstVars: seq<string>, firstCap: string, lastVars: seq<string>)
    ensures SelectCandidates(a + b, firstVars, firstCap, lastVars)
         == SelectCandidates(a, firstVars, firstCap, lastVars) + SelectCandidates(b, firstVars, firstCap, lastVars)
  {
    if |a| > 0 {
      assert (a + b)[1..] == a[1..] + b;
      SelectCandidatesAppend(a[1..], b, firstVars, firstCap, lastVars);
    } else {
      assert a + b == b;
    }
  }

}
