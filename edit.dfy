/**
 * Saving the edit form of a device in main.py (`edit_device`, POST), as far as
 * the ledger is concerned: the barcode stays unique, the description gains a
 * log entry when it changed, and the status is `defekt` or recomputed from the
 * loans.
 */
module DeviceEdit {
  import opened Wrappers
  import opened Ledger
  import opened DeviceLog

  /** The submitted form fields the ledger uses; the other columns are not modelled. */
  datatype EditForm = EditForm(name: string, barcode: string, description: string, quantity: int, defective: bool)

  /**
   * `Saved`, or the barcode belongs to another device (redirect back, nothing
   * written), or there is no such device (the handler fails before writing).
   */
  datatype EditOutcome = Saved | BarcodeInUse | NoSuchDevice

  datatype Edited = Edited(db: Db, outcome: EditOutcome)

  /** `SELECT id FROM geraete WHERE barcode = ? AND id != ?` finds a row. */
  predicate BarcodeTaken(devices: seq<Device>, barcode: string, id: int) {
    exists i :: 0 <= i < |devices| && devices[i].barcode == barcode && devices[i].id != id
  }

  /** The `UPDATE geraete SET ... WHERE id = ?` of the edit. */
  function Overwrite(devices: seq<Device>, id: int, form: EditForm, description: string, status: string): (r: seq<Device>)
    ensures |r| == |devices|
    ensures forall i :: 0 <= i < |devices| ==>
      r[i] == if devices[i].id == id
              then devices[i].(name := form.name, barcode := form.barcode, description := description, quantity := form.quantity, status := status)
              else devices[i]
  {
    seq(|devices|, i requires 0 <= i < |devices| =>
      if devices[i].id == id
      then devices[i].(name := form.name, barcode := form.barcode, description := description, quantity := form.quantity, status := status)
      else devices[i])
  }

  /** The POST branch of `edit_device`, with the clock reading and the session user passed in. */
  function EditDevice(db: Db, id: int, form: EditForm, timestamp: string, user: string): Edited {
    if BarcodeTaken(db.devices, form.barcode, id) then Edited(db, BarcodeInUse)
    else
      match FindById(db.devices, id)
      case None => Edited(db, NoSuchDevice)
      case Some(dev) =>
        var description := UpdatedDescription(dev.description, form.description, timestamp, user);
        var saved := db.(devices := Overwrite(db.devices, id, form, description, if form.defective then StatusDefective else StatusAvailable));
        Edited(if form.defective then saved else UpdateDeviceStatus(saved, id), Saved)
  }

  /**
   * A rejected edit changes nothing; a saved one writes the form into the
   * device's row, prepends to its log only when the description changed, and
   * leaves it `defekt` or with the status its loans give it; loans, lines and
   * other devices are untouched.
   */
  lemma EditDeviceSpec(db: Db, id: int, form: EditForm, timestamp: string, user: string)
    ensures var e := EditDevice(db, id, form, timestamp, user);
      && (e.outcome == BarcodeInUse <==> BarcodeTaken(db.devices, form.barcode, id))
      && (e.outcome == NoSuchDevice <==> !BarcodeTaken(db.devices, form.barcode, id) && FindById(db.devices, id).None?)
      && (e.outcome != Saved ==> e.db == db)
      && (e.outcome == Saved ==>
            var prior := FindById(db.devices, id).value;
            && e.db.loans == db.loans && e.db.lines == db.lines
            && |e.db.devices| == |db.devices|
            && forall i :: 0 <= i < |db.devices| ==>
                 if db.devices[i].id == id then
                   var d := e.db.devices[i];
                   && d.id == id && d.name == form.name && d.barcode == form.barcode && d.quantity == form.quantity
                   && d.description == (if form.description == prior.description then prior.description
                                        else UpdatedDescription(prior.description, form.description, timestamp, user))
                   && d.status == (if form.defective then StatusDefective else DerivedStatus(db.loans, db.lines, id))
                 else e.db.devices[i] == db.devices[i])
  {
  }

  /** A saved, non-defective device shows `verfügbar` exactly when none of its lines is on an active loan. */
  lemma EditedStatus(db: Db, id: int, form: EditForm, timestamp: string, user: string, i: nat)
    requires !form.defective && i < |db.devices| && db.devices[i].id == id
    requires EditDevice(db, id, form, timestamp, user).outcome == Saved
    ensures var s := EditDevice(db, id, form, timestamp, user).db.devices[i].status;
      s == StatusAvailable <==>
        forall j :: 0 <= j < |db.lines| && db.lines[j].deviceId == id ==> !IsActiveLine(db.loans, db.lines[j])
  {
    EditDeviceSpec(db, id, form, timestamp, user);
    DerivedStatusAvailable(db.loans, db.lines, id);
  }

  /** Writing a barcode no other device holds keeps the keys unique. */
  lemma OverwriteKeysUnique(devices: seq<Device>, id: int, form: EditForm, description: string, status: string)
    requires KeysUnique(devices) && !BarcodeTaken(devices, form.barcode, id)
    ensures KeysUnique(Overwrite(devices, id, form, description, status))
  {
    var r := Overwrite(devices, id, form, description, status);
    forall a, b | 0 <= a < b < |r| ensures r[a].id != r[b].id && r[a].barcode != r[b].barcode {
      assert r[a].id == devices[a].id && r[b].id == devices[b].id;
    }
  }

  /** Edits keep device ids and barcodes unique. */
  lemma EditKeepsKeysUnique(db: Db, id: int, form: EditForm, timestamp: string, user: string)
    requires KeysUnique(db.devices)
    ensures KeysUnique(EditDevice(db, id, form, timestamp, user).db.devices)
  {
    if !BarcodeTaken(db.devices, form.barcode, id) && FindById(db.devices, id).Some? {
      var dev := FindById(db.devices, id).value;
      var description := UpdatedDescription(dev.description, form.description, timestamp, user);
      var status := if form.defective then StatusDefective else StatusAvailable;
      var saved := db.(devices := Overwrite(db.devices, id, form, description, status));
      OverwriteKeysUnique(db.devices, id, form, description, status);
      if !form.defective {
        StatusOnly(saved, id);
        SameButStatusKeys(saved.devices, UpdateDeviceStatus(saved, id).devices);
      }
    }
  }

  /** The edit form then shows what was typed (stripped), when the stamp and the text keep the log's shape. */
  lemma EditedDescriptionRoundTrip(db: Db, id: int, form: EditForm, timestamp: string, user: string, i: nat)
    requires i < |db.devices| && db.devices[i].id == id
    requires EditDevice(db, id, form, timestamp, user).outcome == Saved
    requires form.description != FindById(db.devices, id).value.description
    requires ']' !in timestamp && ']' !in user && '\n' !in timestamp && '\n' !in user
    requires !Text.HasBreak(form.description + "\n")
    ensures CurrentDescription(EditDevice(db, id, form, timestamp, user).db.devices[i].description) == Text.Strip(form.description)
  {
    EditDeviceSpec(db, id, form, timestamp, user);
    EditedDescriptionShown(FindById(db.devices, id).value.description, form.description, timestamp, user);
  }
}
