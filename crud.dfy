/**
 * The asset store of `app/crud.py`: create, get, list, partial update and
 * delete over the `assets` table, with the unique index on `serial_number`
 * and the rollback that follows an integrity failure.
 *
 * The table is a map from id to Asset held by a class. Each commit is one
 * atomic update of that map; a rejected commit leaves it as it was.
 */
module Crud {
  import opened Wrappers
  import opened PyValues

  /** A row of the `assets` table. */
  datatype Asset = Asset(
    id: nat,
    name: string,
    category: string,
    purchaseDate: Date,
    serialNumber: Option<string>,
    createdAt: Timestamp)

  /** The fields a caller supplies to create an asset (`AssetCreate`). */
  datatype AssetCreate = AssetCreate(
    name: string,
    category: string,
    purchaseDate: Date,
    serialNumber: Option<string>)

  /** The keys the update dict can hold: the fields of `AssetUpdate`. */
  datatype Field = Name | Category | PurchaseDate | SerialNumber

  /** A value of the update dict; `Null` is Python's `None`. */
  datatype UpdateValue = Null | Text(text: string) | Day(day: Date)

  /** The two ways a commit can break an integrity constraint. */
  datatype IntegrityFault = DuplicateSerial | OtherViolation

  /** What an operation hands back: a value, or the detail of the 400 error it raises. */
  datatype Outcome<+T> = Ok(value: T) | Rejected(detail: string)

  /** A schema-validated update dict: every non-null value has its field's type. */
  predicate WellTyped(data: map<Field, UpdateValue>) {
    forall k :: k in data ==> data[k].Null? || (if k == PurchaseDate then data[k].Day? else data[k].Text?)
  }

  /** Whether the update loop writes field `k`: the key is present and its value is not None. */
  predicate Written(data: map<Field, UpdateValue>, k: Field) {
    k in data && !data[k].Null?
  }

  /** Field `k` of an asset, as the update dict would carry it. */
  function FieldValue(a: Asset, k: Field): UpdateValue {
    match k
    case Name => Text(a.name)
    case Category => Text(a.category)
    case PurchaseDate => Day(a.purchaseDate)
    case SerialNumber => if a.serialNumber.Some? then Text(a.serialNumber.value) else Null
  }

  /** `setattr(obj, k, v)` for a non-null, well-typed `v`. */
  function SetField(a: Asset, k: Field, v: UpdateValue): (b: Asset)
    requires !v.Null? && (if k == PurchaseDate then v.Day? else v.Text?)
  {
    match k
    case Name => a.(name := v.text)
    case Category => a.(category := v.text)
    case PurchaseDate => a.(purchaseDate := v.day)
    case SerialNumber => a.(serialNumber := Some(v.text))
  }

  /** The record after the update loop has run over the whole of `data`. */
  function Merged(a: Asset, data: map<Field, UpdateValue>): (b: Asset)
    requires WellTyped(data)
  {
    Asset(
      a.id,
      if Written(data, Name) then data[Name].text else a.name,
      if Written(data, Category) then data[Category].text else a.category,
      if Written(data, PurchaseDate) then data[PurchaseDate].day else a.purchaseDate,
      if Written(data, SerialNumber) then Some(data[SerialNumber].text) else a.serialNumber,
      a.createdAt)
  }

  /**
   * The merge rule: a field takes the value `data` gives it when its key is
   * present with a non-None value, and keeps its old value otherwise; id and
   * created_at are never touched.
   */
  lemma MergedField(a: Asset, data: map<Field, UpdateValue>, k: Field)
    requires WellTyped(data)
    ensures FieldValue(Merged(a, data), k) == if Written(data, k) then data[k] else FieldValue(a, k)
    ensures Merged(a, data).id == a.id && Merged(a, data).createdAt == a.createdAt
  {
  }

  /** An update never clears a serial number: None values are skipped. */
  lemma MergeKeepsSerial(a: Asset, data: map<Field, UpdateValue>)
    requires WellTyped(data) && a.serialNumber.Some?
    ensures Merged(a, data).serialNumber.Some?
    ensures !Written(data, SerialNumber) ==> Merged(a, data).serialNumber == a.serialNumber
  {
  }

  /** Applying the same update twice is the same as applying it once. */
  lemma MergeIdempotent(a: Asset, data: map<Field, UpdateValue>)
    requires WellTyped(data)
    ensures Merged(Merged(a, data), data) == Merged(a, data)
  {
  }

  /** An update whose dict writes nothing (empty, or all None) leaves the record as it was. */
  lemma MergeNothingWritten(a: Asset, data: map<Field, UpdateValue>)
    requires WellTyped(data) && forall k :: k in data ==> data[k].Null?
    ensures Merged(a, data) == a
  {
  }

  /** One more key handled by the loop: `setattr` when its value is not None. */
  lemma MergedStep(a: Asset, done: map<Field, UpdateValue>, k: Field, v: UpdateValue)
    requires WellTyped(done) && k !in done
    requires v.Null? || (if k == PurchaseDate then v.Day? else v.Text?)
    ensures WellTyped(done[k := v])
    ensures Merged(a, done[k := v]) == if v.Null? then Merged(a, done) else SetField(Merged(a, done), k, v)
  {
  }

  /**
   * The `for k, v in data.items(): if v is not None: setattr(obj, k, v)`
   * loop. Keys are distinct and each writes its own field, so the order the
   * dict yields them in does not matter.
   */
  method ApplyUpdate(a: Asset, data: map<Field, UpdateValue>) returns (obj: Asset)
    requires WellTyped(data)
    ensures obj == Merged(a, data)
  {
    obj := a;
    var pending := data.Keys;
    while pending != {}
      invariant pending <= data.Keys
      invariant WellTyped(data - pending)
      invariant obj == Merged(a, data - pending)
      decreases pending
    {
      var k :| k in pending;
      var done := data - pending;
      MergedStep(a, done, k, data[k]);
      assert data - (pending - {k}) == done[k := data[k]];
      if !data[k].Null? {
        obj := SetField(obj, k, data[k]);
      }
      pending := pending - {k};
    }
    assert data - pending == data;
  }

  /** Whether a non-null `serial` is already held by one of `rows` (NULLs never collide). */
  predicate SerialTaken(rows: map<nat, Asset>, serial: Option<string>) {
    serial.Some? && exists id :: id in rows && rows[id].serialNumber == serial
  }

  /** The unique index on `serial_number`: no two rows share a non-null serial. */
  ghost predicate SerialsUnique(rows: map<nat, Asset>) {
    forall i, j :: i in rows && j in rows && i != j && rows[i].serialNumber.Some? ==>
      rows[i].serialNumber != rows[j].serialNumber
  }

  /**
   * The database's verdict on committing a row whose serial is `serial`
   * beside `others`: the unique index fires first; `otherViolation` stands for
   * any other constraint the database enforces and this model does not see.
   */
  function Verdict(others: map<nat, Asset>, serial: Option<string>, otherViolation: bool): (f: Option<IntegrityFault>)
    ensures f == Some(DuplicateSerial) <==> SerialTaken(others, serial)
    ensures f.None? <==> !SerialTaken(others, serial) && !otherViolation
  {
    if SerialTaken(others, serial) then Some(DuplicateSerial)
    else if otherViolation then Some(OtherViolation)
    else None
  }

  /**
   * The verdict agrees with the unique index: writing `a` under `id` is
   * rejected as a duplicate exactly when the table that would result breaks
   * serial uniqueness, and goes through exactly when that table keeps it and
   * no other constraint fires.
   */
  lemma {:induction false} VerdictMatchesIndex(rows: map<nat, Asset>, id: nat, a: Asset, otherViolation: bool)
    requires SerialsUnique(rows)
    ensures Verdict(rows - {id}, a.serialNumber, otherViolation) == Some(DuplicateSerial) <==> !SerialsUnique(rows[id := a])
    ensures Verdict(rows - {id}, a.serialNumber, otherViolation).None? <==> SerialsUnique(rows[id := a]) && !otherViolation
  {
    if SerialTaken(rows - {id}, a.serialNumber) {
      var j :| j in rows - {id} && rows[j].serialNumber == a.serialNumber;
      var next := rows[id := a];
      assert id in next && j in next && id != j && next[id].serialNumber.Some? && next[id].serialNumber == next[j].serialNumber;
    } else {
      UniquenessPreserved(rows, id, a);
    }
  }

  /** Writing a row whose serial no other row holds keeps serials unique. */
  lemma {:induction false} UniquenessPreserved(rows: map<nat, Asset>, id: nat, a: Asset)
    requires SerialsUnique(rows)
    requires !SerialTaken(rows - {id}, a.serialNumber)
    ensures SerialsUnique(rows[id := a])
  {
    var next := rows[id := a];
    forall i, j | i in next && j in next && i != j && next[i].serialNumber.Some?
      ensures next[i].serialNumber != next[j].serialNumber
    {
      if i == id {
        assert j in rows - {id};
      } else if j == id {
        assert i in rows - {id};
      }
    }
  }

  const DuplicatePrefix: string := "Asset with serial number '"
  const DuplicateSuffix: string := "' already exists."
  const GenericDetail: string := "Integrity error while updating asset."

  /** The `detail` of the 400 error raised for a fault; `shown` is the serial as the f-string prints it. */
  function Detail(fault: IntegrityFault, shown: string): string {
    match fault
    case DuplicateSerial => DuplicatePrefix + shown + DuplicateSuffix
    case OtherViolation => GenericDetail
  }

  /** Recovers the serial number a duplicate-serial detail names (the partner of Detail). */
  function NamedSerial(detail: string): Option<string> {
    if |detail| >= |DuplicatePrefix| + |DuplicateSuffix|
       && detail[..|DuplicatePrefix|] == DuplicatePrefix
       && detail[|detail| - |DuplicateSuffix|..] == DuplicateSuffix
    then Some(detail[|DuplicatePrefix|..|detail| - |DuplicateSuffix|])
    else None
  }

  /**
   * The classification: a duplicate-serial detail names exactly the serial
   * it was given, and the generic detail names none, so the two are never
   * confused.
   */
  lemma DetailClassification(shown: string)
    ensures NamedSerial(Detail(DuplicateSerial, shown)) == Some(shown)
    ensures NamedSerial(Detail(OtherViolation, shown)) == None
  {
  }

  /** `str()` of an optional serial: None prints as "None". */
  function Shown(serial: Option<string>): string {
    if serial.Some? then serial.value else "None"
  }

  /** `str(data.get('serial_number'))` on the update path. */
  function ShownFromData(data: map<Field, UpdateValue>): string
    requires WellTyped(data)
  {
    if Written(data, SerialNumber) then data[SerialNumber].text else "None"
  }

  /**
   * Under the unique index, an update that does not write serial_number can
   * never be rejected as a duplicate, so the update path's "'None' already
   * exists" detail cannot occur.
   */
  lemma UnwrittenSerialNeverDuplicate(rows: map<nat, Asset>, id: nat, data: map<Field, UpdateValue>, otherViolation: bool)
    requires SerialsUnique(rows) && id in rows && rows[id].id == id
    requires WellTyped(data) && !Written(data, SerialNumber)
    ensures Verdict(rows - {id}, Merged(rows[id], data).serialNumber, otherViolation) != Some(DuplicateSerial)
  {
  }

  /** The `assets` table behind one database session. */
  class AssetTable {
    /** The rows, by id. */
    var rows: map<nat, Asset>
    /** The next id the auto-increment column hands out. */
    var nextId: nat

    ghost predicate Valid()
      reads this
    {
      && 0 < nextId
      && (forall id :: id in rows ==> rows[id].id == id && 0 < id < nextId)
      && SerialsUnique(rows)
    }

    constructor ()
      ensures Valid() && rows == map[] && nextId == 1
    {
      rows := map[];
      nextId := 1;
    }

    /**
     * `create_asset_db`: insert a row with a fresh id and `created_at := now`.
     * On an integrity failure the session rolls back and the 400 detail is
     * returned instead.
     */
    method Create(asset: AssetCreate, now: Timestamp, otherViolation: bool) returns (r: Outcome<Asset>)
      requires Valid()
      modifies this
      ensures Valid()
      ensures r.Ok? <==> Verdict(old(rows), asset.serialNumber, otherViolation).None?
      ensures r.Ok? ==>
        && r.value == Asset(r.value.id, asset.name, asset.category, asset.purchaseDate, asset.serialNumber, now)
        && r.value.id !in old(rows) && old(nextId) <= r.value.id
        && rows == old(rows)[r.value.id := r.value]
      ensures r.Rejected? ==>
        && rows == old(rows) && old(nextId) <= nextId
        && r.detail == Detail(Verdict(old(rows), asset.serialNumber, otherViolation).value, Shown(asset.serialNumber))
      ensures r.Rejected? && SerialTaken(old(rows), asset.serialNumber) ==>
        NamedSerial(r.detail) == Some(asset.serialNumber.value)
      ensures r.Rejected? && !SerialTaken(old(rows), asset.serialNumber) ==>
        r.detail == GenericDetail && NamedSerial(r.detail) == None
    {
      var row := Asset(nextId, asset.name, asset.category, asset.purchaseDate, asset.serialNumber, now);
      var fault := Verdict(rows, asset.serialNumber, otherViolation);
      // The insert draws its id before the index is checked, so a rejected
      // insert still uses up that id.
      nextId := nextId + 1;
      if fault.Some? {
        DetailClassification(Shown(asset.serialNumber));
        return Rejected(Detail(fault.value, Shown(asset.serialNumber)));
      }
      assert rows - {row.id} == rows;
      UniquenessPreserved(rows, row.id, row);
      rows := rows[row.id := row];
      r := Ok(row);
    }

    /** `get_asset_db`: the row stored under `id`, or None; never a default row. Any int may be asked for. */
    method Get(id: int) returns (r: Option<Asset>)
      requires Valid()
      ensures r.Some? <==> id in rows
      ensures r.Some? ==> r.value == rows[id] && r.value.id == id
    {
      if id in rows {
        r := Some(rows[id]);
      } else {
        r := None;
      }
    }

    /** `list_assets_db`: every row exactly once, in an order the database chooses. */
    method List() returns (all: seq<Asset>)
      requires Valid()
      ensures |all| == |rows|
      ensures forall i :: 0 <= i < |all| ==> all[i].id in rows && rows[all[i].id] == all[i]
      ensures forall i, j :: 0 <= i < j < |all| ==> all[i].id != all[j].id
      ensures forall id :: id in rows ==> rows[id] in all
    {
      all := [];
      var pending := rows.Keys;
      while pending != {}
        invariant pending <= rows.Keys
        invariant |all| + |pending| == |rows|
        invariant forall i :: 0 <= i < |all| ==> all[i].id in rows && all[i].id !in pending && rows[all[i].id] == all[i]
        invariant forall i, j :: 0 <= i < j < |all| ==> all[i].id != all[j].id
        invariant forall id :: id in rows && id !in pending ==> rows[id] in all
        decreases pending
      {
        var id :| id in pending;
        all := all + [rows[id]];
        pending := pending - {id};
      }
    }

    /**
     * `update_asset_db`: None when `id` is absent; otherwise the merge of
     * `data` into the row. A merge that changes nothing flushes no UPDATE and
     * cannot fail; any other is committed, or rolled back on an integrity
     * failure so that the row keeps its prior values.
     */
    method Update(id: int, data: map<Field, UpdateValue>, otherViolation: bool) returns (r: Outcome<Option<Asset>>)
      requires Valid() && WellTyped(data)
      modifies this
      ensures Valid() && nextId == old(nextId)
      ensures id !in old(rows) ==> r == Ok(None) && rows == old(rows)
      ensures id in old(rows) ==>
        var merged := Merged(old(rows)[id], data);
        var fault := Verdict(old(rows) - {id}, merged.serialNumber, otherViolation);
        if merged == old(rows)[id] then r == Ok(Some(merged)) && rows == old(rows)
        else if fault.None? then r == Ok(Some(merged)) && rows == old(rows)[id := merged]
        else r == Rejected(Detail(fault.value, ShownFromData(data))) && rows == old(rows)
      ensures r.Rejected? ==> id in old(rows)
      ensures r.Rejected? && NamedSerial(r.detail).Some? ==>
        Written(data, SerialNumber) && NamedSerial(r.detail) == Some(data[SerialNumber].text)
    {
      var found := Get(id);
      if found.None? {
        return Ok(None);
      }
      var obj := ApplyUpdate(found.value, data);
      if obj == found.value {
        return Ok(Some(obj));
      }
      var fault := Verdict(rows - {id}, obj.serialNumber, otherViolation);
      if fault.Some? {
        DetailClassification(ShownFromData(data));
        if !Written(data, SerialNumber) {
          UnwrittenSerialNeverDuplicate(rows, id, data, otherViolation);
        }
        return Rejected(Detail(fault.value, ShownFromData(data)));
      }
      UniquenessPreserved(rows, id, obj);
      rows := rows[id := obj];
      r := Ok(Some(obj));
    }

    /** `delete_asset_db`: False when `id` is absent; otherwise remove exactly that row. */
    method Delete(id: int) returns (ok: bool)
      requires Valid()
      modifies this
      ensures Valid() && nextId == old(nextId)
      ensures ok <==> id in old(rows)
      ensures rows == old(rows) - {id}
    {
      var found := Get(id);
      if found.None? {
        return false;
      }
      rows := rows - {id};
      ok := true;
    }
  }

  /** Deleting the same id twice: the second delete finds nothing. */
  method DeleteTwice(table: AssetTable, id: int) returns (first: bool, second: bool)
    requires table.Valid()
    modifies table
    ensures table.Valid()
    ensures first <==> id in old(table.rows)
    ensures !second
    ensures table.rows == old(table.rows) - {id}
  {
    first := table.Delete(id);
    second := table.Delete(id);
  }
}
