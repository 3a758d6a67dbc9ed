/**
 * One warehouse of main.py as a mutable object: its three tables and the
 * borrow cart of the session, changed in place by the route handlers. Each
 * method is proved to compute the specification function of its module.
 */
module Lending {
  import opened Wrappers
  import opened Text
  import opened Ledger
  import opened BorrowCart
  import opened Borrowing
  import opened DeviceEdit
  import opened DeviceLog

  class Warehouse {
    var devices: seq<Device>
    var loans: seq<Loan>
    var lines: seq<Line>
    var cart: seq<CartEntry>

    function Tables(): Db
      reads this
    {
      Db(devices, loans, lines)
    }

    /** The table keys are unique and the cart holds each device at most once. */
    predicate Valid()
      reads this
    {
      KeysUnique(devices) && DistinctIds(cart)
    }

    constructor (db: Db)
      requires KeysUnique(db.devices)
      ensures Valid() && Tables() == db && cart == []
    {
      devices := db.devices;
      loans := db.loans;
      lines := db.lines;
      cart := [];
    }

    /** `update_device_status(device_id)`. */
    method UpdateDeviceStatus(d: int)
      modifies this
      ensures Tables() == Ledger.UpdateDeviceStatus(old(Tables()), d) && cart == old(cart)
    {
      if FindById(devices, d).Some? {
        devices := SetStatus(devices, d, DerivedStatus(loans, lines, d));
      }
    }

    /** One scanned barcode: add a unit of its device to the cart, or say why not. */
    method AddOne(barcode: string) returns (error: Option<AddError>)
      modifies this
      ensures Tables() == old(Tables())
      ensures Step(cart, error) == AddBarcode(old(Tables()), old(cart), barcode)
    {
      error := None;
      match FindByBarcode(devices, barcode)
      case None =>
        error := Some(NotFound(barcode));
      case Some(dev) =>
        var available := dev.quantity - Borrowed(loans, lines, dev.id);
        if available <= 0 {
          error := Some(Exhausted(dev.name, dev.quantity));
        } else {
          match CartIndex(cart, dev.id)
          case Some(k) =>
            if cart[k].quantity >= available {
              error := Some(CapReached(dev.name, available));
            } else {
              cart := cart[k := cart[k].(quantity := cart[k].quantity + 1)];
            }
          case None =>
            cart := cart + [CartEntry(dev.id, dev.name, dev.barcode, 1, available)];
        }
    }

    /** One line of the barcode field: stripped, skipped when blank, otherwise added. */
    method ScanLine(line: string, added: nat, errors: seq<AddError>) returns (added': nat, errors': seq<AddError>)
      modifies this
      ensures Tables() == old(Tables())
      ensures Batch(cart, added', errors') == Next(old(Tables()), Batch(old(cart), added, errors), line)
    {
      added', errors' := added, errors;
      var barcode := Strip(line);
      if barcode != [] {
        ghost var db := Tables();
        ghost var before := cart;
        var error := AddOne(barcode);
        assert Step(cart, error) == AddBarcode(db, before, barcode);
        match error
        case None =>
          added' := added + 1;
        case Some(e) =>
          errors' := errors + [e];
      }
    }

    /** The loop over the scanned lines, with `added_count` and `error_messages`. */
    method AddLines(scanned: seq<string>) returns (added: nat, errors: seq<AddError>)
      modifies this
      ensures Tables() == old(Tables())
      ensures Batch(cart, added, errors) == AddAll(old(Tables()), old(cart), scanned)
    {
      ghost var db := Tables();
      ghost var start := cart;
      added := 0;
      errors := [];
      var i := 0;
      while i < |scanned|
        invariant 0 <= i <= |scanned|
        invariant Tables() == db
        invariant Batch(cart, added, errors) == AddAll(db, start, scanned[..i])
      {
        ghost var before := Batch(cart, added, errors);
        AddAllStep(db, start, scanned, i);
        added, errors := ScanLine(scanned[i], added, errors);
        assert Batch(cart, added, errors) == Next(db, before, scanned[i]);
        i := i + 1;
      }
      assert scanned[..|scanned|] == scanned;
    }

    /** The `add_device` branch of the borrow form: a batch of scanned barcodes. */
    method AddToBorrowList(input: string) returns (added: nat, errors: seq<AddError>)
      requires Valid()
      modifies this
      ensures Valid()
      ensures Tables() == old(Tables())
      ensures Batch(cart, added, errors) == AddBarcodes(old(Tables()), old(cart), input)
    {
      var scanned := ScannedLines(input);
      AddAllSpec(Tables(), cart, scanned);
      added, errors := AddLines(scanned);
    }

    /** The loop of `complete_borrow`: one line per cart entry, each followed by a status update. */
    method InsertLines(loanId: string)
      modifies this
      ensures cart == old(cart)
      ensures Tables() == CommitLines(old(Tables()), loanId, cart)
    {
      ghost var start := Tables();
      var i := 0;
      while i < |cart|
        invariant 0 <= i <= |cart| && cart == old(cart)
        invariant Tables() == CommitLines(start, loanId, cart[..i])
      {
        ghost var prev := Tables();
        var e := cart[i];
        assert cart[..i + 1] == cart[..i] + [e];
        assert CommitLines(start, loanId, cart[..i + 1])
            == Ledger.UpdateDeviceStatus(prev.(lines := prev.lines + [LineFor(loanId, e)]), e.id);
        lines := lines + [LineFor(loanId, e)];
        UpdateDeviceStatus(e.id);
        i := i + 1;
      }
      assert cart[..|cart|] == cart;
    }

    /** The `complete_borrow` branch: the cart becomes loan `loanId` and is emptied. */
    method CompleteBorrow(loanId: string, borrower: Borrower, date: string)
      requires Valid()
      modifies this
      ensures Valid()
      ensures Tables() == Commit(old(Tables()), old(cart), loanId, borrower, date) && cart == []
    {
      if cart != [] {
        ghost var start := Tables().(loans := loans + [NewLoan(loanId, borrower, date)]);
        loans := loans + [NewLoan(loanId, borrower, date)];
        InsertLines(loanId);
        CommitLinesTables(start, loanId, cart);
        SameButStatusKeys(old(devices), devices);
        cart := [];
      }
    }

    /** The `complete_return` branch: give back the listed devices of loan `loanId`. */
    method ReturnDevices(loanId: string, ids: seq<int>)
      requires Valid()
      modifies this
      ensures Valid()
      ensures Tables() == Return(old(Tables()), loanId, ids) && cart == old(cart)
    {
      var i := 0;
      while i < |ids|
        invariant 0 <= i <= |ids| && cart == old(cart)
        invariant Tables() == ReturnLines(old(Tables()), loanId, ids[..i])
      {
        assert ids[..i + 1][..i] == ids[..i];
        lines := DropLines(lines, loanId, ids[i]);
        UpdateDeviceStatus(ids[i]);
        i := i + 1;
      }
      assert ids[..|ids|] == ids;
      ReturnLinesSpec(old(Tables()), loanId, ids);
      SameButStatusKeys(old(devices), devices);
      if CountLines(lines, loanId) == 0 {
        loans := CloseLoan(loans, loanId);
      }
    }

    /** The POST branch of `edit_device`. */
    method EditDevice(id: int, form: EditForm, timestamp: string, user: string) returns (outcome: EditOutcome)
      requires Valid()
      modifies this
      ensures Valid()
      ensures Edited(Tables(), outcome) == DeviceEdit.EditDevice(old(Tables()), id, form, timestamp, user)
      ensures cart == old(cart)
    {
      EditKeepsKeysUnique(Tables(), id, form, timestamp, user);
      if BarcodeTaken(devices, form.barcode, id) {
        return BarcodeInUse;
      }
      var found := FindById(devices, id);
      if found.None? {
        return NoSuchDevice;
      }
      var description := UpdatedDescription(found.value.description, form.description, timestamp, user);
      devices := Overwrite(devices, id, form, description, if form.defective then StatusDefective else StatusAvailable);
      if !form.defective {
        UpdateDeviceStatus(id);
      }
      outcome := Saved;
    }

    /** `remove_from_borrow(device_id)`. */
    method RemoveFromBorrow(id: int)
      requires Valid()
      modifies this
      ensures Valid()
      ensures Tables() == old(Tables()) && cart == BorrowCart.RemoveFromBorrow(old(cart), id)
    {
      RemoveFromBorrowDistinct(cart, id);
      cart := BorrowCart.RemoveFromBorrow(cart, id);
    }
  }
}
