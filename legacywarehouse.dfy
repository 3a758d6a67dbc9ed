/**
 * One warehouse of app.py as a mutable object: its three tables and the
 * session cart, changed in place by the route handlers. Each method is proved
 * to compute the specification function of LegacyLedger.
 */
module LegacyLending {
  import opened Wrappers
  import opened Ledger
  import opened Borrowing
  import opened DeviceEdit
  import opened DeviceLog
  import opened LegacyLedger

  class LegacyWarehouse {
    var devices: seq<Unit>
    var loans: seq<Loan>
    var details: seq<Detail>
    var cart: seq<Pick>

    function Tables(): Store
      reads this
    {
      Store(devices, loans, details)
    }

    /** The schema's keys hold and the cart holds each unit at most once. */
    predicate Valid()
      reads this
    {
      UnitKeysUnique(devices) && DistinctPicks(cart)
    }

    constructor (st: Store)
      requires UnitKeysUnique(st.devices)
      ensures Valid() && Tables() == st && cart == []
    {
      devices := st.devices;
      loans := st.loans;
      details := st.details;
      cart := [];
    }

    /** The `add_device` branch of app.py's borrow form. */
    method AddToBorrowList(barcode: string)
      requires Valid()
      modifies this
      ensures Valid()
      ensures Tables() == old(Tables()) && cart == AddDevice(old(devices), old(cart), barcode)
    {
      AddDeviceDistinct(devices, cart, barcode);
      var found := FindAvailable(devices, barcode);
      if found.Some? && found.value.id !in PickIds(cart) {
        cart := cart + [Pick(found.value.id, found.value.name, found.value.barcode)];
      }
    }

    /** The `complete_borrow` branch: the cart becomes loan `loanId` and is emptied. */
    method CompleteBorrow(loanId: string, borrower: Borrower, date: string)
      requires Valid()
      modifies this
      ensures Valid()
      ensures Tables() == LegacyLedger.Commit(old(Tables()), old(cart), loanId, borrower, date) && cart == []
    {
      if cart != [] {
        ghost var start := Tables().(loans := loans + [NewLoan(loanId, borrower, date)]);
        loans := loans + [NewLoan(loanId, borrower, date)];
        var i := 0;
        while i < |cart|
          invariant 0 <= i <= |cart| && cart == old(cart)
          invariant Tables() == CommitPicks(start, loanId, borrower.name, cart[..i])
        {
          assert cart[..i + 1][..i] == cart[..i];
          var p := cart[i];
          details := details + [DetailFor(loanId, p)];
          devices := SetUnitStatus(devices, p.id, LentTo(borrower.name));
          i := i + 1;
        }
        assert cart[..|cart|] == cart;
        CommitPicksSpec(start, loanId, borrower.name, cart);
        UnitStatusKeys(old(devices), devices);
        cart := [];
      }
    }

    /** The `complete_return` branch of app.py. */
    method ReturnDevices(loanId: string, ids: seq<int>)
      requires Valid()
      modifies this
      ensures Valid()
      ensures Tables() == LegacyLedger.Return(old(Tables()), loanId, ids) && cart == old(cart)
    {
      var i := 0;
      while i < |ids|
        invariant 0 <= i <= |ids| && cart == old(cart)
        invariant Tables() == ReturnUnits(old(Tables()), loanId, ids[..i])
      {
        assert ids[..i + 1][..i] == ids[..i];
        devices := SetUnitStatus(devices, ids[i], StatusAvailable);
        details := DropDetails(details, loanId, ids[i]);
        i := i + 1;
      }
      assert ids[..|ids|] == ids;
      ReturnUnitsSpec(old(Tables()), loanId, ids);
      UnitStatusKeys(old(devices), devices);
      if CountDetails(details, loanId) == 0 {
        loans := CloseLoan(loans, loanId);
      }
    }

    /** The POST branch of app.py's `edit_device`. */
    method EditDevice(id: int, form: UnitForm, timestamp: string, user: string) returns (outcome: EditOutcome)
      requires Valid()
      modifies this
      ensures Valid()
      ensures UnitEdited(Tables(), outcome) == EditUnit(old(Tables()), id, form, timestamp, user)
      ensures cart == old(cart)
    {
      EditUnitKeysUnique(Tables(), id, form, timestamp, user);
      if UnitBarcodeTaken(devices, form.barcode, id) {
        return BarcodeInUse;
      }
      var found := FindUnit(devices, id);
      if found.None? {
        return NoSuchDevice;
      }
      var description := UpdatedDescription(found.value.description, form.description, timestamp, user);
      devices := OverwriteUnit(devices, id, form, description);
      outcome := Saved;
    }

    /** app.py's `remove_from_borrow(device_id)`. */
    method RemoveFromBorrow(id: int)
      requires Valid()
      modifies this
      ensures Valid()
      ensures Tables() == old(Tables()) && cart == RemovePick(old(cart), id)
    {
      RemovePickDistinct(cart, id);
      cart := RemovePick(cart, id);
    }
  }
}
