/** The record store: the patient list and the mutations the page applies to it
    (add, update, delete, sample import). Ids and timestamps, which the page draws from
    the clock and a random source, are parameters here. */
module Patients {
  import opened Wrappers
  import Text
  import Seqs

  /** One stored patient record. */
  datatype Patient = Patient(id: string, name: string, gender: string, age: nat, condition: string, added: string)

  /** The entry form as read at submission: the hidden id field (empty when adding), the name as
      typed, the checked gender choice if any, the age if the field is not empty, and the selected condition. */
  datatype Form = Form(id: string, name: string, gender: Option<string>, age: Option<nat>, condition: string)

  /** Why a submission was refused: a required field is missing. */
  datatype FormError = Incomplete

  /** `patients.push(...)`: the record built from the fields, appended at the end. */
  function Add(s: seq<Patient>, id: string, name: string, gender: string, age: nat, condition: string,
               added: string): (r: seq<Patient>)
    ensures |r| == |s| + 1
    ensures r[..|s|] == s
    ensures r[|s|].id == id && r[|s|].added == added
    ensures r[|s|].name == name && r[|s|].gender == gender && r[|s|].age == age && r[|s|].condition == condition
  {
    s + [Patient(id, name, gender, age, condition, added)]
  }

  /** `findIndex(p => p.id == id)`: the position of the first record with that id, if any. */
  function FindIndex(s: seq<Patient>, id: string): (r: Option<nat>)
    ensures r.Some? ==> r.value < |s| && s[r.value].id == id
    ensures r.Some? ==> forall j :: 0 <= j < r.value ==> s[j].id != id
    ensures r.None? <==> forall j :: 0 <= j < |s| ==> s[j].id != id
  {
    if |s| == 0 then None
    else if s[0].id == id then Some(0)
    else match FindIndex(s[1..], id)
      case None => None
      case Some(k) => Some(k + 1)
  }

  /** `patients.find(x => x.id == id)`: the first record with that id, if any. */
  function FindById(s: seq<Patient>, id: string): (r: Option<Patient>)
    ensures r.Some? ==> r.value in s && r.value.id == id
    ensures r.Some? ==> FindIndex(s, id).Some? && r.value == s[FindIndex(s, id).value]
    ensures r.None? <==> forall j :: 0 <= j < |s| ==> s[j].id != id
  {
    match FindIndex(s, id)
    case None => None
    case Some(i) => Some(s[i])
  }

  /** Replace name, gender, age and condition of the first record with `id`; the record keeps its id
      and creation stamp. When no record has `id` the list is returned as it was. */
  function Update(s: seq<Patient>, id: string, name: string, gender: string, age: nat,
                  condition: string): (r: seq<Patient>)
    ensures |r| == |s|
    ensures FindIndex(s, id).None? ==> r == s
    ensures FindIndex(s, id).Some? ==>
      var i := FindIndex(s, id).value;
      && r[i] == Patient(s[i].id, name, gender, age, condition, s[i].added)
      && (forall j :: 0 <= j < |s| && j != i ==> r[j] == s[j])
  {
    match FindIndex(s, id)
    case None => s
    case Some(i) => s[i := s[i].(name := name, gender := gender, age := age, condition := condition)]
  }

  /** The selection test `p.id != id` used by delete. */
  function IdOtherThan(id: string): Patient -> bool {
    (p: Patient) => p.id != id
  }

  /** `patients.filter(p => p.id != id)`: every record with `id` removed. */
  function Delete(s: seq<Patient>, id: string): (r: seq<Patient>)
    ensures forall i :: 0 <= i < |r| ==> r[i].id != id
  {
    Seqs.Keep(s, IdOtherThan(id))
  }

  /** `addOrUpdatePatient`: refuse an incomplete form; otherwise update the record named by the
      form's id when it is set, or append a new record with `freshId` and the stamp `now`.
      The name is stored trimmed. */
  function Submit(s: seq<Patient>, f: Form, freshId: string, now: string): (r: Result<seq<Patient>, FormError>)
    ensures r.Failure? <==>
      Text.Trim(f.name) == [] || f.gender.None? || f.age.None? || f.condition == []
    ensures r.Success? && f.id == [] ==>
      && |r.value| == |s| + 1 && r.value[..|s|] == s
      && r.value[|s|] == Patient(freshId, Text.Trim(f.name), f.gender.value, f.age.value, f.condition, now)
    ensures r.Success? && f.id != [] ==>
      && r.value == Update(s, f.id, Text.Trim(f.name), f.gender.value, f.age.value, f.condition)
      && |r.value| == |s|
      && (FindIndex(s, f.id).None? ==> r.value == s)
      && FindById(r.value, f.id) ==
         match FindById(s, f.id)
         case None => None
         case Some(p) => Some(Patient(p.id, Text.Trim(f.name), f.gender.value, f.age.value, f.condition, p.added))
  {
    var name := Text.Trim(f.name);
    if name == [] || f.gender.None? || f.age.None? || f.condition == [] then Failure(Incomplete)
    else if f.id != [] then
      var r := Update(s, f.id, name, f.gender.value, f.age.value, f.condition);
      UpdateThenFind(s, f.id, name, f.gender.value, f.age.value, f.condition);
      Success(r)
    else Success(Add(s, freshId, name, f.gender.value, f.age.value, f.condition, now))
  }

  /** `loadSample`: the three fixed sample records placed in front of the list. */
  function LoadSample(s: seq<Patient>, ids: (string, string, string), stamps: (string, string, string)): (r: seq<Patient>)
    ensures |r| == |s| + 3 && r[3..] == s
    ensures r[0].name == "Aisha Khan" && r[0].gender == "Female" && r[0].age == 52 && r[0].condition == "Diabetes"
    ensures r[1].name == "Bilal Ahmed" && r[1].gender == "Male" && r[1].age == 45 && r[1].condition == "High Blood Pressure"
    ensures r[2].name == "Sara Ali" && r[2].gender == "Female" && r[2].age == 30 && r[2].condition == "Thyroid"
    ensures r[0].id == ids.0 && r[1].id == ids.1 && r[2].id == ids.2
    ensures r[0].added == stamps.0 && r[1].added == stamps.1 && r[2].added == stamps.2
  {
    [ Patient(ids.0, "Aisha Khan", "Female", 52, "Diabetes", stamps.0),
      Patient(ids.1, "Bilal Ahmed", "Male", 45, "High Blood Pressure", stamps.1),
      Patient(ids.2, "Sara Ali", "Female", 30, "Thyroid", stamps.2) ] + s
  }

  // Properties of the mutations

  /** Looking up the updated id afterwards shows every changed field and the unchanged id and stamp. */
  lemma UpdateThenFind(s: seq<Patient>, id: string, name: string, gender: string, age: nat, condition: string)
    ensures FindById(Update(s, id, name, gender, age, condition), id) ==
      match FindById(s, id)
      case None => None
      case Some(p) => Some(Patient(p.id, name, gender, age, condition, p.added))
  {
    var r := Update(s, id, name, gender, age, condition);
    match FindIndex(s, id)
    case None =>
    case Some(i) =>
      assert FindIndex(r, id) == Some(i) by {
        assert forall j :: 0 <= j < i ==> r[j] == s[j];
      }
  }

  /** Applying the same update twice is the same as applying it once. */
  lemma UpdateIdempotent(s: seq<Patient>, id: string, name: string, gender: string, age: nat, condition: string)
    ensures var r := Update(s, id, name, gender, age, condition);
      Update(r, id, name, gender, age, condition) == r
  {
    var r := Update(s, id, name, gender, age, condition);
    if FindIndex(s, id).Some? {
      var i := FindIndex(s, id).value;
      assert FindIndex(r, id) == Some(i) by {
        assert forall j :: 0 <= j < i ==> r[j] == s[j];
      }
    }
  }

  /** The remaining records are the old list minus those with `id`, in their old order:
      every other record is kept exactly as often as it occurred. */
  lemma DeleteKeepsOthers(s: seq<Patient>, id: string)
    ensures Seqs.IsSubsequence(Delete(s, id), s)
    ensures forall p :: multiset(Delete(s, id))[p] == if p.id != id then multiset(s)[p] else 0
  {
    Seqs.KeepIsSubsequence(s, IdOtherThan(id));
    Seqs.KeepCounts(s, IdOtherThan(id));
  }

  /** Deleting the same id a second time changes nothing. */
  lemma DeleteIdempotent(s: seq<Patient>, id: string)
    ensures Delete(Delete(s, id), id) == Delete(s, id)
  {
    Seqs.KeepIdempotent(s, IdOtherThan(id));
  }

  /** Deleting an id that no record has leaves the list unchanged. */
  lemma DeleteAbsent(s: seq<Patient>, id: string)
    requires forall j :: 0 <= j < |s| ==> s[j].id != id
    ensures Delete(s, id) == s
  {
    Seqs.KeepAll(s, IdOtherThan(id));
  }

  /** Deleting the id of a freshly added record undoes the add, when no earlier record had that id. */
  lemma DeleteUndoesAdd(s: seq<Patient>, id: string, name: string, gender: string, age: nat,
                        condition: string, added: string)
    requires forall j :: 0 <= j < |s| ==> s[j].id != id
    ensures Delete(Add(s, id, name, gender, age, condition, added), id) == s
  {
    var p := Patient(id, name, gender, age, condition, added);
    Seqs.KeepAppend(s, [p], IdOtherThan(id));
    DeleteAbsent(s, id);
  }

  /** After an add with a fresh id, looking the id up finds exactly the new record. */
  lemma AddThenFind(s: seq<Patient>, id: string, name: string, gender: string, age: nat,
                    condition: string, added: string)
    requires forall j :: 0 <= j < |s| ==> s[j].id != id
    ensures FindById(Add(s, id, name, gender, age, condition, added), id) ==
      Some(Patient(id, name, gender, age, condition, added))
  {
    var r := Add(s, id, name, gender, age, condition, added);
    assert forall j :: 0 <= j < |s| ==> r[j] == s[j];
  }
}
