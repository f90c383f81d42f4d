/**
  `extract_demographic_data` of osler/datadashboard/views.py: one pass over
  the workups, building a map from patient primary key to that patient's
  dashboard record. The first workup of a patient seeds every field; each
  later workup of the same patient only appends its date to `wu_dates`.
  The clock (`now().date()`) is the parameter `today`, dates of birth are
  day numbers, and the written date of a workup is the ISO `YYYY-MM-DD`
  string `str(wu.written_datetime.date())` that goes into the JSON.
 */
module Dashboard {

  type Pk = nat

  datatype Ethnicity = Ethnicity(name: string)

  /** The patient fields the extraction reads through `wu.patient`. */
  datatype PatientInfo = PatientInfo(
    pk: Pk,
    dobDay: int,
    genderName: string,
    ethnicities: seq<Ethnicity>,
    displayName: string)

  datatype Workup = Workup(patient: PatientInfo, diagnosis: string, writtenDate: string)

  /** One value of `dashboard_data`: the dictionary built for a patient. */
  datatype Demographics = Demographics(
    conditions: string,
    age: int,
    gender: string,
    ethnicities: seq<string>,
    name: string,
    wuDates: seq<string>)

  const DaysPerYear: nat := 365

  /**
    `(today - date_of_birth).days // 365`: whole 365-day years elapsed,
    rounded towards minus infinity (Python's floor division; Dafny's `/`
    agrees with it for a positive divisor).
   */
  function Age(today: int, dobDay: int): (age: int)
    ensures age * DaysPerYear <= today - dobDay < (age + 1) * DaysPerYear
    ensures dobDay <= today ==> age >= 0
  {
    (today - dobDay) / DaysPerYear
  }

  /** The loop collecting `getattr(ethnicity, 'name')` for each of the patient's ethnicities. */
  function EthnicityNames(es: seq<Ethnicity>): (names: seq<string>)
    ensures |names| == |es|
    ensures forall i :: 0 <= i < |es| ==> names[i] == es[i].name
  {
    seq(|es|, i requires 0 <= i < |es| => es[i].name)
  }

  /** The record a patient's first workup creates. */
  function FirstSeen(wu: Workup, today: int): Demographics {
    Demographics(
      wu.diagnosis,
      Age(today, wu.patient.dobDay),
      wu.patient.genderName,
      EthnicityNames(wu.patient.ethnicities),
      wu.patient.displayName,
      [wu.writtenDate])
  }

  // ---------------------------------------------------------------------
  // Keys, first occurrences and per-patient dates, defined on their own

  /** The patient key of every workup, in input order. */
  function PkSeq(workups: seq<Workup>): (ps: seq<Pk>)
    ensures |ps| == |workups|
    ensures forall i :: 0 <= i < |workups| ==> ps[i] == workups[i].patient.pk
  {
    seq(|workups|, i requires 0 <= i < |workups| => workups[i].patient.pk)
  }

  /** The patients that have at least one workup. */
  function PatientPks(workups: seq<Workup>): set<Pk> {
    set p | p in PkSeq(workups)
  }

  /** The number of workups written for patient `pk`. */
  function WorkupCount(workups: seq<Workup>, pk: Pk): nat {
    multiset(PkSeq(workups))[pk]
  }

  /** Position of the first occurrence of `p`. */
  function FirstIndex(ps: seq<Pk>, p: Pk): (i: nat)
    requires p in ps
    ensures i < |ps| && ps[i] == p
    ensures forall j :: 0 <= j < i ==> ps[j] != p
  {
    if ps[0] == p then 0 else 1 + FirstIndex(ps[1..], p)
  }

  /** The written dates of patient `pk`'s workups, in input order. */
  function WorkupDates(workups: seq<Workup>, pk: Pk): (dates: seq<string>)
  {
    if |workups| == 0 then []
    else
      (if workups[0].patient.pk == pk then [workups[0].writtenDate] else []) + WorkupDates(workups[1..], pk)
  }

  /** A patient has as many dates as workups. */
  lemma {:induction false} WorkupDatesCount(workups: seq<Workup>, pk: Pk)
    ensures |WorkupDates(workups, pk)| == WorkupCount(workups, pk)
  {
    if |workups| > 0 {
      assert PkSeq(workups) == [workups[0].patient.pk] + PkSeq(workups[1..]);
      WorkupDatesCount(workups[1..], pk);
    }
  }

  /**
    What the dashboard should contain, stated per patient: one entry for
    every patient with a workup, whose fields come from that patient's first
    workup and whose date list holds all of that patient's workup dates.
   */
  function ReferenceDashboard(workups: seq<Workup>, today: int): map<Pk, Demographics> {
    map pk | pk in PatientPks(workups) ::
      FirstSeen(workups[FirstIndex(PkSeq(workups), pk)], today).(wuDates := WorkupDates(workups, pk))
  }

  // ---------------------------------------------------------------------
  // The extraction

  lemma PkSeqSnoc(workups: seq<Workup>, wu: Workup)
    ensures PkSeq(workups + [wu]) == PkSeq(workups) + [wu.patient.pk]
  {
  }

  /**
    One iteration of the loop: a patient not yet in the map gets the record
    this workup seeds; a patient already there gets this workup's date
    appended to `wu_dates`.
   */
  function AddWorkup(data: map<Pk, Demographics>, wu: Workup, today: int): (r: map<Pk, Demographics>)
    ensures r.Keys == data.Keys + {wu.patient.pk}
  {
    if wu.patient.pk !in data then
      data[wu.patient.pk := FirstSeen(wu, today)]
    else
      var existing := data[wu.patient.pk];
      data[wu.patient.pk := existing.(wuDates := existing.wuDates + [wu.writtenDate])]
  }

  /**
    A step never disturbs what is there: other patients keep their records,
    and the workup's own patient keeps every field but `wu_dates`, which
    grows by this workup's date at the end.
   */
  lemma AddWorkupOnlyAppendsDate(data: map<Pk, Demographics>, wu: Workup, today: int, pk: Pk)
    requires pk in data
    ensures var r := AddWorkup(data, wu, today);
      && (pk != wu.patient.pk ==> r[pk] == data[pk])
      && (pk == wu.patient.pk ==> r[pk] == data[pk].(wuDates := data[pk].wuDates + [wu.writtenDate]))
  {
  }

  /** `extract_demographic_data` as a left fold of `AddWorkup` over the workups. */
  function ExtractDemographicData(workups: seq<Workup>, today: int): (data: map<Pk, Demographics>)
    ensures data.Keys == PatientPks(workups)
  {
    if |workups| == 0 then map[]
    else
      var earlier := workups[..|workups| - 1];
      var wu := workups[|workups| - 1];
      assert workups == earlier + [wu];
      PkSeqSnoc(earlier, wu);
      AddWorkup(ExtractDemographicData(earlier, today), wu, today)
  }

  lemma ExtractSnoc(earlier: seq<Workup>, wu: Workup, today: int)
    ensures ExtractDemographicData(earlier + [wu], today) == AddWorkup(ExtractDemographicData(earlier, today), wu, today)
  {
    assert (earlier + [wu])[..|earlier|] == earlier;
  }

  lemma DistinctPksSnoc(earlier: seq<Workup>, wu: Workup)
    ensures DistinctPks(PkSeq(earlier + [wu]))
         == if wu.patient.pk in DistinctPks(PkSeq(earlier)) then DistinctPks(PkSeq(earlier))
            else DistinctPks(PkSeq(earlier)) + [wu.patient.pk]
  {
    PkSeqSnoc(earlier, wu);
    var ps := PkSeq(earlier + [wu]);
    assert ps[..|ps| - 1] == PkSeq(earlier);
  }

  /**
    The Python loop as written, with its auxiliary `unique_patient_pk_list`:
    list membership decides whether a workup is the patient's first, and the
    list stays in step with the map's keys, so the lookup in the repeat
    branch always finds an entry.
   */
  method ExtractDemographicDataLoop(workups: seq<Workup>, today: int) returns (dashboardData: map<Pk, Demographics>)
    ensures dashboardData == ExtractDemographicData(workups, today)
    ensures dashboardData == ReferenceDashboard(workups, today)
  {
    dashboardData := map[];
    var uniquePatientPkList: seq<Pk> := [];
    for n := 0 to |workups|
      invariant dashboardData == ExtractDemographicData(workups[..n], today)
      invariant uniquePatientPkList == DistinctPks(PkSeq(workups[..n]))
    {
      var wu := workups[n];
      assert workups[..n + 1] == workups[..n] + [wu];
      ExtractSnoc(workups[..n], wu, today);
      DistinctPksSnoc(workups[..n], wu);
      assert wu.patient.pk in uniquePatientPkList <==> wu.patient.pk in dashboardData;
      if wu.patient.pk !in uniquePatientPkList {
        uniquePatientPkList := uniquePatientPkList + [wu.patient.pk];
        dashboardData := dashboardData[wu.patient.pk := FirstSeen(wu, today)];
      } else {
        var existing := dashboardData[wu.patient.pk];
        dashboardData := dashboardData[wu.patient.pk := existing.(wuDates := existing.wuDates + [wu.writtenDate])];
      }
    }
    assert workups[..|workups|] == workups;
    ExtractMatchesReference(workups, today);
  }

  // ---------------------------------------------------------------------
  // The auxiliary list of distinct keys

  /** `unique_patient_pk_list`: the keys in order of first appearance, each once. */
  function DistinctPks(ps: seq<Pk>): (r: seq<Pk>)
    ensures forall p :: p in r <==> p in ps
    ensures forall a, b :: 0 <= a < b < |r| ==> r[a] != r[b]
  {
    if |ps| == 0 then []
    else
      var earlier := DistinctPks(ps[..|ps| - 1]);
      assert ps == ps[..|ps| - 1] + [ps[|ps| - 1]];
      if ps[|ps| - 1] in earlier then earlier else earlier + [ps[|ps| - 1]]
  }

  lemma FirstIndexSnoc(ps: seq<Pk>, x: Pk, p: Pk)
    requires p in ps + [x]
    ensures p in ps ==> FirstIndex(ps + [x], p) == FirstIndex(ps, p)
    ensures p !in ps ==> FirstIndex(ps + [x], p) == |ps|
  {
    var i := FirstIndex(ps + [x], p);
    if p in ps {
      var k := FirstIndex(ps, p);
      assert (ps + [x])[k] == p;
      assert i <= k;
      assert ps[i] == p;
    } else {
      assert i == |ps|;
    }
  }

  /** The distinct keys are listed in the order their first workups appear. */
  lemma {:induction false} DistinctPksInFirstAppearanceOrder(ps: seq<Pk>)
    ensures forall a, b :: 0 <= a < b < |DistinctPks(ps)| ==>
      FirstIndex(ps, DistinctPks(ps)[a]) < FirstIndex(ps, DistinctPks(ps)[b])
  {
    if |ps| > 0 {
      var init := ps[..|ps| - 1];
      var x := ps[|ps| - 1];
      assert ps == init + [x];
      DistinctPksInFirstAppearanceOrder(init);
      var r := DistinctPks(ps);
      var r0 := DistinctPks(init);
      forall a, b | 0 <= a < b < |r|
        ensures FirstIndex(ps, r[a]) < FirstIndex(ps, r[b])
      {
        FirstIndexSnoc(init, x, r[a]);
        FirstIndexSnoc(init, x, r[b]);
        if b < |r0| {
          assert r[a] == r0[a] && r[b] == r0[b];
        } else {
          assert r[a] == r0[a] && r[a] in init;
          assert r[b] == x && x !in init;
        }
      }
    }
  }

  // ---------------------------------------------------------------------
  // The extraction meets the per-patient description

  lemma {:induction false} WorkupDatesSnoc(workups: seq<Workup>, wu: Workup, pk: Pk)
    ensures WorkupDates(workups + [wu], pk)
         == WorkupDates(workups, pk) + (if wu.patient.pk == pk then [wu.writtenDate] else [])
  {
    var tail: seq<string> := if wu.patient.pk == pk then [wu.writtenDate] else [];
    if |workups| == 0 {
      assert [wu][1..] == [];
      assert WorkupDates([], pk) == [];
      assert WorkupDates([wu], pk) == tail + [];
      assert workups + [wu] == [wu];
    } else {
      var head: seq<string> := if workups[0].patient.pk == pk then [workups[0].writtenDate] else [];
      var all := workups + [wu];
      assert all[0] == workups[0];
      assert all[1..] == workups[1..] + [wu];
      assert WorkupDates(all, pk) == head + WorkupDates(workups[1..] + [wu], pk);
      WorkupDatesSnoc(workups[1..], wu, pk);
      assert WorkupDates(workups, pk) == head + WorkupDates(workups[1..], pk);
    }
  }

  /** One key of `ReferenceStep`. */
  lemma ReferenceStepAt(earlier: seq<Workup>, wu: Workup, today: int, pk: Pk)
    requires pk in PatientPks(earlier + [wu])
    ensures pk in AddWorkup(ReferenceDashboard(earlier, today), wu, today)
    ensures AddWorkup(ReferenceDashboard(earlier, today), wu, today)[pk] == ReferenceDashboard(earlier + [wu], today)[pk]
  {
    var workups := earlier + [wu];
    PkSeqSnoc(earlier, wu);
    var prev := ReferenceDashboard(earlier, today);
    var next := AddWorkup(prev, wu, today);
    var ref := ReferenceDashboard(workups, today);
    FirstIndexSnoc(PkSeq(earlier), wu.patient.pk, pk);
    WorkupDatesSnoc(earlier, wu, pk);
    var i := FirstIndex(PkSeq(workups), pk);
    var expected := FirstSeen(workups[i], today).(wuDates := WorkupDates(workups, pk));
    assert ref[pk] == expected;
    if pk in PatientPks(earlier) {
      var k := FirstIndex(PkSeq(earlier), pk);
      assert i == k;
      assert workups[i] == earlier[k];
      assert prev[pk] == FirstSeen(earlier[k], today).(wuDates := WorkupDates(earlier, pk));
      if pk == wu.patient.pk {
        assert next[pk] == prev[pk].(wuDates := prev[pk].wuDates + [wu.writtenDate]);
      } else {
        assert next[pk] == prev[pk];
      }
    } else {
      assert i == |earlier|;
      assert workups[i] == wu;
      assert WorkupDates(earlier, pk) == [] by {
        WorkupDatesCount(earlier, pk);
        assert pk !in multiset(PkSeq(earlier));
      }
      assert WorkupDates(workups, pk) == [wu.writtenDate];
      assert next[pk] == FirstSeen(wu, today);
    }
  }

  /** The description is kept by each step: adding a workup to the description of the earlier ones describes them all. */
  lemma ReferenceStep(earlier: seq<Workup>, wu: Workup, today: int)
    ensures AddWorkup(ReferenceDashboard(earlier, today), wu, today) == ReferenceDashboard(earlier + [wu], today)
  {
    PkSeqSnoc(earlier, wu);
    var next := AddWorkup(ReferenceDashboard(earlier, today), wu, today);
    var ref := ReferenceDashboard(earlier + [wu], today);
    assert next.Keys == ref.Keys;
    forall pk | pk in ref
      ensures next[pk] == ref[pk]
    {
      ReferenceStepAt(earlier, wu, today, pk);
    }
  }

  /** The fold computes exactly the per-patient description. */
  lemma {:induction false} ExtractMatchesReference(workups: seq<Workup>, today: int)
    ensures ExtractDemographicData(workups, today) == ReferenceDashboard(workups, today)
  {
    if |workups| > 0 {
      var earlier := workups[..|workups| - 1];
      var wu := workups[|workups| - 1];
      assert workups == earlier + [wu];
      ExtractMatchesReference(earlier, today);
      ReferenceStep(earlier, wu, today);
    }
  }

  // ---------------------------------------------------------------------
  // Consequences

  /** Each patient's date list has one entry per workup of that patient, in input order. */
  lemma WuDatesAreAllWorkupDates(workups: seq<Workup>, today: int, pk: Pk)
    requires pk in ExtractDemographicData(workups, today)
    ensures ExtractDemographicData(workups, today)[pk].wuDates == WorkupDates(workups, pk)
    ensures |ExtractDemographicData(workups, today)[pk].wuDates| == WorkupCount(workups, pk)
  {
    ExtractMatchesReference(workups, today);
    WorkupDatesCount(workups, pk);
  }

  /** A patient's first workup supplies conditions, age, gender, ethnicities and name. */
  lemma FirstWorkupSeedsRecord(workups: seq<Workup>, today: int, i: nat)
    requires i < |workups|
    requires forall j :: 0 <= j < i ==> workups[j].patient.pk != workups[i].patient.pk
    ensures workups[i].patient.pk in ExtractDemographicData(workups, today)
    ensures var d := ExtractDemographicData(workups, today)[workups[i].patient.pk];
      && d.conditions == workups[i].diagnosis
      && d.age == Age(today, workups[i].patient.dobDay)
      && d.gender == workups[i].patient.genderName
      && d.ethnicities == EthnicityNames(workups[i].patient.ethnicities)
      && d.name == workups[i].patient.displayName
  {
    ExtractMatchesReference(workups, today);
    var pk := workups[i].patient.pk;
    assert PkSeq(workups)[i] == pk;
    var k := FirstIndex(PkSeq(workups), pk);
    assert k == i;
  }

  /**
    Later workups change nothing but dates: every record present after a
    prefix of the input keeps its other fields to the end, and its dates
    only grow at the end.
   */
  lemma {:induction false} LaterWorkupsOnlyAppendDates(workups: seq<Workup>, today: int, n: nat, pk: Pk)
    requires n <= |workups|
    requires pk in ExtractDemographicData(workups[..n], today)
    ensures pk in ExtractDemographicData(workups, today)
    ensures var before := ExtractDemographicData(workups[..n], today)[pk];
      var after := ExtractDemographicData(workups, today)[pk];
      && after == before.(wuDates := after.wuDates)
      && before.wuDates <= after.wuDates
  {
    if n == |workups| {
      assert workups[..n] == workups;
    } else {
      var earlier := workups[..|workups| - 1];
      var wu := workups[|workups| - 1];
      assert earlier[..n] == workups[..n];
      LaterWorkupsOnlyAppendDates(earlier, today, n, pk);
      var prev := ExtractDemographicData(earlier, today);
      assert workups == earlier + [wu];
      ExtractSnoc(earlier, wu, today);
      AddWorkupOnlyAppendsDate(prev, wu, today, pk);
    }
  }

  /** Two workups of one patient with different dates give one entry with both dates, fields from the first. */
  lemma TwoWorkupsOnePatient(w1: Workup, w2: Workup, today: int)
    requires w1.patient.pk == w2.patient.pk
    ensures ExtractDemographicData([w1, w2], today)
         == map[w1.patient.pk := FirstSeen(w1, today).(wuDates := [w1.writtenDate, w2.writtenDate])]
  {
    var pk := w1.patient.pk;
    var seeded := FirstSeen(w1, today);
    ExtractSnoc([], w1, today);
    assert [] + [w1] == [w1];
    var one := ExtractDemographicData([w1], today);
    assert one == AddWorkup(map[], w1, today);
    assert one == map[pk := seeded];
    ExtractSnoc([w1], w2, today);
    assert [w1] + [w2] == [w1, w2];
    var two := ExtractDemographicData([w1, w2], today);
    assert two == AddWorkup(one, w2, today);
    var d := seeded.(wuDates := seeded.wuDates + [w2.writtenDate]);
    assert two == one[pk := d];
    assert d.wuDates == [w1.writtenDate, w2.writtenDate];
    assert one[pk := d] == map[pk := d];
  }


}
