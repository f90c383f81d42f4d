# Osler duplicate-patient search and dashboard extraction, in Dafny

This project models two pure pieces of the Osler clinic application and proves
properties about them.

- **Name variations and the duplicate-patient search** (`osler/core/utils.py`).
  - `all_variations(name)` lists every string one lower-case edit away from a
    name, at positions 1..|name|-1. The first character is never edited, and
    nothing is inserted after the last character. For each position i from 1
    to |name|-1 it emits the deletion at i. Then, for each letter a..z, it emits the
    substitution at i and the insertion before i. The name itself comes last.
    Nothing is de-duplicated.
  - `return_duplicates(first, last)` capitalises both inputs and builds both
    variation lists. If either list is empty it returns nothing. Otherwise it
    selects the patients whose first name is in the first list or starts with
    the capitalised first input (ignoring case), and whose last name is in the
    last list.
  - The patient table is a sequence of `Patient(firstName, lastName)`. The ORM
    query is an order-preserving filter over it. The bare `return` is
    `Option.None`.
- **Dashboard extraction** (`extract_demographic_data` in
  `osler/datadashboard/views.py`).
  - One pass over the workups builds a map from patient key to a
    `Demographics` record.
  - A patient's first workup seeds conditions, age, gender, ethnicity names,
    display name and a one-element `wu_dates`.
  - Each later workup of that patient only appends its date to `wu_dates`.
  - The clock `now().date()` is the parameter `today`. Dates of birth are day
    numbers. A workup's written date is the ISO `YYYY-MM-DD` string
    `str(wu.written_datetime.date())` that goes into the JSON.

Files:

- `option.dfy`: `Optional.Option`.
- `text.dfy`: Python `str.capitalize` and the case-insensitive prefix test
  (`istartswith`), ASCII case only.
- `name_variations.dfy`: `all_variations`, as a function and as the loop nest.
- `duplicates.dfy`: `return_duplicates`.
- `dashboard.dfy`: `extract_demographic_data`, as a left fold and as the loop
  with its `unique_patient_pk_list`.

Each operation has an independent description next to it, and a lemma links
the two:

- `OneEdit` states the one-edit neighbourhood without listing it.
  `AllVariations`' contract, proved through `VariationsMembership`, says that
  `all_variations` produces exactly that neighbourhood.
- `LikelyDuplicate` states the search condition over `OneEdit`.
  `ReturnDuplicates`' contract proves that the query selects exactly those
  patients.
- `ReferenceDashboard` says per patient what the dashboard should hold: the
  fields of the first workup and all workup dates in input order.
  `ExtractMatchesReference` proves that the fold computes it.
  `ExtractDemographicDataLoop` proves the same about the loop as written.

Two facts about the model:

- Capitalisation is Python's `str.capitalize`: the first character is
  upper-cased and every other character is lower-cased.
- `extract_demographic_data` fills conditions (the workup's diagnosis), age,
  gender, ethnicities, name and `wu_dates`, and nothing else.

## Model

| member | source | states |
|---|---|---|
| `Text.Capitalize` | osler/core/utils.py:68-69 | the capitalised input has the same length and equals the input up to letter case; no lower-case letter comes first and no upper-case letter after |
| `Text.CapitalizeIgnoresCase` | osler/core/utils.py:68-69 | inputs that differ only in letter case capitalise to the same string |
| `Text.CapitalizeIdempotent` | osler/core/utils.py:68-69 | capitalising twice gives the same result as capitalising once |
| `NameVariations.AllVariations` | osler/core/utils.py:37-59 | a string is in `all_variations(name)` if and only if the name is present and non-empty and the string is within one lower-case edit at positions 1..L-1 (so `None` and "" give nothing); for L > 1 the list has (L-1)*53+1 entries, repeats included |
| `NameVariations.Variations` | osler/core/utils.py:43-58 | empty name gives []; a one-character name gives exactly [name]; for length L > 1 there are (L-1)*53+1 entries with no de-duplication, and the last entry is the name |
| `NameVariations.ComputeAllVariations` | osler/core/utils.py:37-59 | the nested append loops of the source produce exactly `AllVariations(name)` |
| `NameVariations.VariationsLayout` | osler/core/utils.py:50-56 | for position i and the m-th letter: the deletion sits at index 53(i-1), the substitution at 53(i-1)+1+2m, the insertion at 53(i-1)+2+2m |
| `NameVariations.VariationsAreOneEdit` | osler/core/utils.py:50-58 | every generated string is the name, or one deletion, lower-case substitution or lower-case insertion at a position 1..L-1 |
| `NameVariations.OneEditIsGenerated` | osler/core/utils.py:50-58 | every such one-edit string of a non-empty name is generated, so the name is always its own variation |
| `NameVariations.VariationsMembership` | osler/core/utils.py:45-58 | a string is among the variations of a name if and only if the name is non-empty and the string is within one edit (not at index 0) |
| `NameVariations.VariantShape` | osler/core/utils.py:50-56 | for L > 1 every variant keeps the first character and has length L-1, L or L+1; a variant of length L+1 ends with the name's last character, because nothing is inserted at the end |
| `NameVariations.SingleCharacterOnlyItself` | osler/core/utils.py:45-47 | a one-character name has only itself in its one-edit neighbourhood |
| `NameVariations.BenVariations` | osler/core/utils.py:50-58 | "ben" yields "be", "bn", "ban", "bon" and "ben", 107 entries in all |
| `NameVariations.DuplicatesKept` | osler/core/utils.py:50-56 | duplicates are kept: both deletions of "Ann" give "An", at indexes 0 and 53 |
| `Duplicates.SelectCandidates` | osler/core/utils.py:73-76 | the query keeps exactly the patients meeting the condition, each as many times as it is stored |
| `Duplicates.SelectCandidatesAppend` | osler/core/utils.py:73-76 | the query keeps store order: filtering a concatenation concatenates the filtered parts |
| `Duplicates.ReturnDuplicates` | osler/core/utils.py:62-76 | the result is `None` exactly when either input is empty; otherwise a stored patient is returned if and only if the first name is within one edit of the capitalised first input or starts with it ignoring case, and the last name is within one edit of the capitalised last input; each such stored row appears exactly as many times as it is stored |
| `Duplicates.ExactNameAlwaysFound` | osler/core/utils.py:68-76 | a stored patient whose names equal the capitalised inputs is always returned |
| `Duplicates.AbbreviationFound` | osler/core/utils.py:73-76 | a stored first name that extends the typed one (ignoring case) is returned when the last name matches, which covers abbreviations such as ben/benjamin |
| `Duplicates.ReturnDuplicatesIgnoresInputCase` | osler/core/utils.py:68-69 | the search result does not depend on the letter case of the inputs |
| `Dashboard.Age` | osler/datadashboard/views.py:46 | age is the floor of elapsed days over 365: age*365 <= today-dob < (age+1)*365; it is non-negative when the birth day is not after today |
| `Dashboard.AddWorkup` | osler/datadashboard/views.py:43-58 | one loop step adds the workup's patient to the keys and removes none |
| `Dashboard.AddWorkupOnlyAppendsDate` | osler/datadashboard/views.py:55-58 | a repeat workup leaves other patients untouched and changes its own patient's record only by appending its date to `wu_dates` |
| `Dashboard.ExtractDemographicData` | osler/datadashboard/views.py:37-59 | the keys of the result are exactly the patient keys occurring among the workups |
| `Dashboard.ExtractDemographicDataLoop` | osler/datadashboard/views.py:37-59 | the loop, which uses `unique_patient_pk_list` to tell first from repeat workups, computes the per-patient description; the list matches the distinct keys of the workups seen so far at every step |
| `Dashboard.DistinctPks` | osler/datadashboard/views.py:40-44 | `unique_patient_pk_list` holds each key of the input exactly once and nothing else |
| `Dashboard.DistinctPksInFirstAppearanceOrder` | osler/datadashboard/views.py:43-44 | `unique_patient_pk_list` lists keys in the order of their first appearance |
| `Dashboard.ReferenceStep` | osler/datadashboard/views.py:41-58 | adding one workup to the per-patient description of the earlier workups gives the description of all of them |
| `Dashboard.ExtractMatchesReference` | osler/datadashboard/views.py:37-59 | the extraction equals the per-patient description: one entry per patient, fields from that patient's first workup, dates from all that patient's workups in input order |
| `Dashboard.WuDatesAreAllWorkupDates` | osler/datadashboard/views.py:53-58 | a patient's `wu_dates` lists the dates of that patient's workups in input order, and its length is the number of those workups |
| `Dashboard.FirstWorkupSeedsRecord` | osler/datadashboard/views.py:43-54 | conditions, age, gender, ethnicity names and display name come from the patient's first workup |
| `Dashboard.LaterWorkupsOnlyAppendDates` | osler/datadashboard/views.py:55-58 | after a record exists, later workups keep all of its fields except `wu_dates`, and the earlier `wu_dates` is a prefix of the final one |
| `Dashboard.TwoWorkupsOnePatient` | osler/datadashboard/views.py:41-58 | two workups of one patient give a single entry with both dates and the first workup's other fields |

## Left out

- `make_filepath` (osler/core/utils.py:12-34): uses uuid randomness and checks whether a file exists.
- `get_names_from_url_query_dict` and `get_due_date_from_url_query_dict`: read HTTP request parameters; there is no logic beyond that.
- `query_all_workups`, `send_all_json`, `DataDashboardView` and `export_csv`: ORM queries, JSON responses, templates and request printing. The commented-out code in views.py is not modelled either.
- osler/appointment/migrations/0002_auto_20200806_1411.py: a generated schema migration with no behaviour.
- The database. The patient table is a sequence. `first_name__in` and `last_name__in` are exact, case-sensitive matches. `istartswith` is an ASCII case-insensitive prefix test. Collation rules of a particular database are not modelled.
- Text.Capitalize: follows Python's `str.capitalize` for ASCII letters only. Non-ASCII case mappings (title case, 'ß' and the like) are out of scope, because the model has no Unicode case tables.
- Date handling. `now().date()` is the parameter `today`. Dates of birth are day numbers. Formatting a written date with `str(...date())` happens before the model: the workup already carries the date string.
- Dashboard.Age: uses 365-day years, as the source does. Leap days are not corrected.
- Python aliasing: the source appends to `wu_dates` through a list object shared with the dictionary. The model replaces the record with a functional update, which gives the same final dictionary.
- Dashboard.ExtractDemographicData: the clock is read once per pass. The source calls `now()` inside the loop, once for each newly seen patient. The model takes one `today` for the whole pass, so a pass that crosses midnight is not modelled.
- Dashboard.ExtractDemographicData: the result map has no key order. The source's dict keeps insertion order, and the JSON response writes keys in that order. In the model that order is the order of `DistinctPks`, which `DistinctPksInFirstAppearanceOrder` proves is first-appearance order.
- Duplicates.SelectCandidates: the query result is taken in store order. The source's query has no `order_by`, so the database chooses the order. The membership and multiplicity contracts do not depend on this choice.
