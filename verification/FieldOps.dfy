/** The list operations on the fields of a form: add, update, remove and move by key. */
module FieldOps {
  import opened Json
  import opened Wrappers

  datatype Field = Field(key: string, attributes: map<string, Json>)

  datatype FieldError = UnknownField | FieldExists

  type EditedFields = Result<seq<Field>, FieldError>

  ghost predicate DistinctFields(fields: seq<Field>) {
    forall i, j :: 0 <= i < j < |fields| ==> fields[i].key != fields[j].key
  }

  predicate HasField(fields: seq<Field>, key: string) {
    exists i :: 0 <= i < |fields| && fields[i].key == key
  }

  /** The index of the first field with the key. */
  function FieldIndex(fields: seq<Field>, key: string): (i: nat)
    requires HasField(fields, key)
    ensures i < |fields| && fields[i].key == key
    ensures forall j :: 0 <= j < i ==> fields[j].key != key
  {
    if fields[0].key == key then 0
    else
      assert forall i :: 0 < i < |fields| ==> fields[i] == fields[1..][i - 1];
      1 + FieldIndex(fields[1..], key)
  }

  function Clamped(index: int, length: nat): (i: nat)
    ensures i <= length && (0 <= index <= length ==> i == index)
  {
    if index < 0 then 0 else if index > length then length else index
  }

  function Inserted(fields: seq<Field>, index: nat, field: Field): seq<Field>
    requires index <= |fields|
  {
    fields[..index] + [field] + fields[index..]
  }

  function Without(fields: seq<Field>, index: nat): seq<Field>
    requires index < |fields|
  {
    fields[..index] + fields[index + 1..]
  }

  function AddField(fields: seq<Field>, field: Field, index: Option<int>): EditedFields {
    if HasField(fields, field.key) then Err(FieldExists)
    else
      var position := match index case Some(i) => Clamped(i, |fields|) case None => |fields|;
      Ok(Inserted(fields, position, field))
  }

  /** A patch may set a new key; an empty one is written like any other attribute. */
  function UpdateField(fields: seq<Field>, key: string, newKey: Option<string>, patch: map<string, Json>): EditedFields {
    if !HasField(fields, key) then Err(UnknownField)
    else if newKey.Some? && newKey.value != "" && newKey.value != key && HasField(fields, newKey.value) then Err(FieldExists)
    else
      var i := FieldIndex(fields, key);
      Ok(fields[i := Field(newKey.GetOr(key), fields[i].attributes + patch)])
  }

  function RemoveField(fields: seq<Field>, key: string): EditedFields {
    if !HasField(fields, key) then Err(UnknownField) else Ok(Without(fields, FieldIndex(fields, key)))
  }

  function MoveField(fields: seq<Field>, key: string, index: int): EditedFields {
    if !HasField(fields, key) then Err(UnknownField)
    else
      var i := FieldIndex(fields, key);
      var rest := Without(fields, i);
      Ok(Inserted(rest, Clamped(index, |rest|), fields[i]))
  }

  /** In a list with distinct keys the index of a key is where its field stands. */
  lemma IndexIsUnique(fields: seq<Field>, i: nat)
    requires DistinctFields(fields) && i < |fields|
    ensures HasField(fields, fields[i].key) && FieldIndex(fields, fields[i].key) == i
  {
    assert HasField(fields, fields[i].key);
  }

  lemma InsertedIsDistinct(fields: seq<Field>, index: nat, field: Field)
    requires DistinctFields(fields) && index <= |fields| && !HasField(fields, field.key)
    ensures DistinctFields(Inserted(fields, index, field))
  {
    var r := Inserted(fields, index, field);
    forall i, j | 0 <= i < j < |r| ensures r[i].key != r[j].key {
      if i != index && j != index {
        var a, b := if i < index then i else i - 1, if j < index then j else j - 1;
        assert r[i] == fields[a] && r[j] == fields[b];
      } else if i == index {
        assert r[j] == fields[j - 1];
      } else {
        assert r[i] == fields[i];
      }
    }
  }

  lemma WithoutIsDistinct(fields: seq<Field>, i: nat)
    requires DistinctFields(fields) && i < |fields|
    ensures DistinctFields(Without(fields, i)) && !HasField(Without(fields, i), fields[i].key)
  {
    var r := Without(fields, i);
    assert forall k :: 0 <= k < |r| ==> r[k] == fields[if k < i then k else k + 1];
  }

  lemma UpdateKeepsKeysDistinct(fields: seq<Field>, key: string, newKey: Option<string>, patch: map<string, Json>)
    requires DistinctFields(fields) && UpdateField(fields, key, newKey, patch).Ok?
    ensures DistinctFields(UpdateField(fields, key, newKey, patch).value) <==>
              !(newKey == Some("") && key != "" && HasField(fields, ""))
  {
    var i, r := FieldIndex(fields, key), UpdateField(fields, key, newKey, patch).value;
    if newKey == Some("") && key != "" && HasField(fields, "") {
      var j := FieldIndex(fields, "");
      assert r[i].key == r[j].key && i != j;
    }
  }

  /** Every operation keeps the keys distinct; an update to the empty key only while no field has it. */
  lemma OperationsKeepKeysDistinct(fields: seq<Field>, field: Field, position: Option<int>, key: string,
    newKey: Option<string>, patch: map<string, Json>, index: int)
    requires DistinctFields(fields)
    ensures AddField(fields, field, position).Ok? ==> DistinctFields(AddField(fields, field, position).value)
    ensures RemoveField(fields, key).Ok? ==> DistinctFields(RemoveField(fields, key).value)
    ensures MoveField(fields, key, index).Ok? ==> DistinctFields(MoveField(fields, key, index).value)
    ensures UpdateField(fields, key, newKey, patch).Ok? ==>
              (DistinctFields(UpdateField(fields, key, newKey, patch).value) <==>
               !(newKey == Some("") && key != "" && HasField(fields, "")))
  {
    if !HasField(fields, field.key) {
      InsertedIsDistinct(fields, match position case Some(i) => Clamped(i, |fields|) case None => |fields|, field);
    }
    if HasField(fields, key) {
      var i := FieldIndex(fields, key);
      var rest := Without(fields, i);
      WithoutIsDistinct(fields, i);
      InsertedIsDistinct(rest, Clamped(index, |rest|), fields[i]);
    }
    if UpdateField(fields, key, newKey, patch).Ok? {
      UpdateKeepsKeysDistinct(fields, key, newKey, patch);
    }
  }

  /** Removing what was added gives the list back. */
  lemma RemoveUndoesAdd(fields: seq<Field>, field: Field, index: Option<int>)
    requires DistinctFields(fields) && AddField(fields, field, index).Ok?
    ensures RemoveField(AddField(fields, field, index).value, field.key) == Ok(fields)
  {
    var position := match index case Some(i) => Clamped(i, |fields|) case None => |fields|;
    InsertedIsDistinct(fields, position, field);
    var r := Inserted(fields, position, field);
    IndexIsUnique(r, position);
    assert Without(r, position) == fields;
  }

  lemma InsertedUndone(rest: seq<Field>, at: nat, field: Field)
    requires at <= |rest|
    ensures Without(Inserted(rest, at, field), at) == rest && Inserted(rest, at, field)[at] == field
  {
  }

  lemma WithoutUndone(fields: seq<Field>, i: nat)
    requires i < |fields|
    ensures Inserted(Without(fields, i), i, fields[i]) == fields
  {
  }

  /** A moved field stands at the clamped index, and moving it back restores the list. */
  lemma MoveBackUndoesMove(fields: seq<Field>, i: nat, index: int)
    requires DistinctFields(fields) && i < |fields|
    ensures MoveField(fields, fields[i].key, index).Ok?
    ensures var moved := MoveField(fields, fields[i].key, index).value;
            && |moved| == |fields| && moved[Clamped(index, |fields| - 1)] == fields[i]
            && MoveField(moved, fields[i].key, i) == Ok(fields)
  {
    IndexIsUnique(fields, i);
    var rest := Without(fields, i);
    var at := Clamped(index, |rest|);
    var moved := Inserted(rest, at, fields[i]);
    WithoutIsDistinct(fields, i);
    InsertedIsDistinct(rest, at, fields[i]);
    InsertedUndone(rest, at, fields[i]);
    IndexIsUnique(moved, at);
    WithoutUndone(fields, i);
  }

  /** An update patches the first field of the key and no other; it sets a new key only if one is given. */
  lemma UpdateFieldEffect(fields: seq<Field>, key: string, newKey: Option<string>, patch: map<string, Json>, i: nat)
    requires i < |fields| && fields[i].key == key && forall j :: 0 <= j < i ==> fields[j].key != key
    requires UpdateField(fields, key, newKey, patch).Ok?
    ensures var now := UpdateField(fields, key, newKey, patch).value;
            && |now| == |fields|
            && now[i].key == (match newKey case Some(k) => k case None => key)
            && (forall f :: f in now[i].attributes <==> f in fields[i].attributes || f in patch)
            && (forall f :: f in patch ==> now[i].attributes[f] == patch[f])
            && (forall f :: f in fields[i].attributes && f !in patch ==> now[i].attributes[f] == fields[i].attributes[f])
            && (forall j :: 0 <= j < |fields| && j != i ==> now[j] == fields[j])
  {
    assert FieldIndex(fields, key) == i;
  }

  /** Adding needs a new key; every other operation needs the field, and a changed key must be free. */
  lemma FieldOpsRaiseExactly(fields: seq<Field>, field: Field, position: Option<int>, key: string,
    newKey: Option<string>, patch: map<string, Json>, index: int)
    ensures AddField(fields, field, position).Ok? <==> forall f :: f in fields ==> f.key != field.key
    ensures RemoveField(fields, key).Ok? <==> exists f :: f in fields && f.key == key
    ensures MoveField(fields, key, index).Ok? <==> exists f :: f in fields && f.key == key
    ensures UpdateField(fields, key, newKey, patch).Ok? <==>
              && (exists f :: f in fields && f.key == key)
              && (newKey.Some? && newKey.value !in ["", key] ==> forall f :: f in fields ==> f.key != newKey.value)
  {
    assert forall i :: 0 <= i < |fields| ==> fields[i] in fields;
  }
}
