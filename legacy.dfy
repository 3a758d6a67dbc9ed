/**
 * The older, single-unit ledger of app.py. Every device row is one physical
 * unit whose status column is written directly: `verfügbar`, `defekt` or
 * `ausgeliehen an <name>`. The cart holds each unit at most once; loan lines
 * carry no quantity.
 */
module LegacyLedger {
  import opened Wrappers
  import opened Ledger
  import opened Borrowing
  import opened DeviceLog
  import opened DeviceEdit

  /** A `geraete` row of app.py as far as the ledger uses it. */
  datatype Unit = Unit(id: int, name: string, barcode: string, status: string, description: string)

  /** An `ausleih_details` row of app.py. */
  datatype Detail = Detail(loanId: string, deviceId: int, barcode: string)

  datatype Store = Store(devices: seq<Unit>, loans: seq<Loan>, details: seq<Detail>)

  /** A cart entry of app.py: `{id, name, barcode}`. */
  datatype Pick = Pick(id: int, name: string, barcode: string)

  /** The schema's keys: `id` is the primary key and `barcode` is `UNIQUE`. */
  predicate UnitKeysUnique(devices: seq<Unit>) {
    forall i, j :: 0 <= i < j < |devices| ==> devices[i].id != devices[j].id && devices[i].barcode != devices[j].barcode
  }

  function PickIds(cart: seq<Pick>): set<int> {
    set i | 0 <= i < |cart| :: cart[i].id
  }

  predicate DistinctPicks(cart: seq<Pick>) {
    forall i, j :: 0 <= i < j < |cart| ==> cart[i].id != cart[j].id
  }

  /** `SELECT id, name, barcode FROM geraete WHERE barcode = ? AND status = 'verfügbar'`, first row. */
  function FindAvailable(devices: seq<Unit>, barcode: string): (r: Option<Unit>)
    ensures r.Some? ==> r.value in devices && r.value.barcode == barcode && r.value.status == StatusAvailable
    ensures r.None? <==> forall i :: 0 <= i < |devices| ==> !(devices[i].barcode == barcode && devices[i].status == StatusAvailable)
  {
    if devices == [] then None
    else if devices[0].barcode == barcode && devices[0].status == StatusAvailable then Some(devices[0])
    else FindAvailable(devices[1..], barcode)
  }

  /** The `add_device` branch: the barcode is taken as typed, and nothing is reported. */
  function AddDevice(devices: seq<Unit>, cart: seq<Pick>, barcode: string): seq<Pick> {
    match FindAvailable(devices, barcode)
    case None => cart
    case Some(u) => if u.id in PickIds(cart) then cart else cart + [Pick(u.id, u.name, u.barcode)]
  }

  lemma PickIdsSnoc(cart: seq<Pick>, p: Pick)
    ensures PickIds(cart + [p]) == PickIds(cart) + {p.id}
  {
    var c := cart + [p];
    assert c[|cart|] == p;
    forall x | x in PickIds(c) ensures x in PickIds(cart) + {p.id} {
      var i :| 0 <= i < |c| && c[i].id == x;
      if i < |cart| {
        assert c[i] == cart[i];
      }
    }
    forall x | x in PickIds(cart) ensures x in PickIds(c) {
      var i :| 0 <= i < |cart| && cart[i].id == x;
      assert c[i] == cart[i];
    }
  }

  /**
   * A barcode grows the cart by one entry exactly when it belongs to a unit
   * that is `verfügbar` and not yet in the cart, and that entry is the unit;
   * in every other case the cart stays as it was.
   */
  lemma AddDeviceSpec(devices: seq<Unit>, cart: seq<Pick>, barcode: string)
    requires UnitKeysUnique(devices)
    ensures var r := AddDevice(devices, cart, barcode);
      && (r != cart <==>
            exists i :: 0 <= i < |devices| && devices[i].barcode == barcode && devices[i].status == StatusAvailable
                        && devices[i].id !in PickIds(cart))
      && (r != cart ==>
            exists i :: 0 <= i < |devices| && devices[i].barcode == barcode && devices[i].status == StatusAvailable
                        && r == cart + [Pick(devices[i].id, devices[i].name, barcode)])
  {
    var r := AddDevice(devices, cart, barcode);
    match FindAvailable(devices, barcode)
    case None =>
    case Some(u) =>
      var k :| 0 <= k < |devices| && devices[k] == u;
      forall i | 0 <= i < |devices| && devices[i].barcode == barcode && devices[i].status == StatusAvailable
        ensures devices[i] == u
      {
      }
      if u.id !in PickIds(cart) {
        assert |r| == |cart| + 1;
      }
  }

  /** An added barcode keeps the cart's ids distinct. */
  lemma AddDeviceDistinct(devices: seq<Unit>, cart: seq<Pick>, barcode: string)
    requires DistinctPicks(cart)
    ensures DistinctPicks(AddDevice(devices, cart, barcode))
  {
    var r := AddDevice(devices, cart, barcode);
    if r != cart {
      var u := FindAvailable(devices, barcode).value;
      forall i, j | 0 <= i < j < |r| ensures r[i].id != r[j].id {
        if j == |cart| {
          assert r[i] == cart[i];
          assert cart[i].id in PickIds(cart);
        }
      }
    }
  }

  /** The status a commit writes: `f"ausgeliehen an {borrower_name}"`. */
  function LentTo(name: string): (s: string)
    ensures s != StatusAvailable && s != StatusDefective
  {
    assert ("ausgeliehen an " + name)[0] == 'a';
    "ausgeliehen an " + name
  }

  /** `UPDATE geraete SET status = ? WHERE id = ?`. */
  function SetUnitStatus(devices: seq<Unit>, d: int, s: string): (r: seq<Unit>)
    ensures |r| == |devices|
    ensures forall i :: 0 <= i < |devices| ==> r[i] == if devices[i].id == d then devices[i].(status := s) else devices[i]
  {
    seq(|devices|, i requires 0 <= i < |devices| => if devices[i].id == d then devices[i].(status := s) else devices[i])
  }

  function DetailFor(loanId: string, p: Pick): Detail {
    Detail(loanId, p.id, p.barcode)
  }

  function NewDetails(loanId: string, cart: seq<Pick>): (r: seq<Detail>)
    ensures |r| == |cart| && forall i :: 0 <= i < |cart| ==> r[i] == DetailFor(loanId, cart[i])
  {
    seq(|cart|, i requires 0 <= i < |cart| => DetailFor(loanId, cart[i]))
  }

  /** The commit loop: insert the entry's line, then mark the unit as lent. */
  function CommitPicks(st: Store, loanId: string, name: string, cart: seq<Pick>): Store {
    if cart == [] then st
    else
      var prev := CommitPicks(st, loanId, name, cart[..|cart| - 1]);
      var p := cart[|cart| - 1];
      prev.(details := prev.details + [DetailFor(loanId, p)], devices := SetUnitStatus(prev.devices, p.id, LentTo(name)))
  }

  /** `complete_borrow` of app.py: nothing for an empty cart. */
  function Commit(st: Store, cart: seq<Pick>, loanId: string, b: Borrower, date: string): Store {
    if cart == [] then st
    else CommitPicks(st.(loans := st.loans + [NewLoan(loanId, b, date)]), loanId, b.name, cart)
  }

  lemma {:induction false} CommitPicksSpec(st: Store, loanId: string, name: string, cart: seq<Pick>)
    ensures var r := CommitPicks(st, loanId, name, cart);
      && r.loans == st.loans
      && r.details == st.details + NewDetails(loanId, cart)
      && |r.devices| == |st.devices|
      && forall i :: 0 <= i < |st.devices| ==>
           r.devices[i] == if st.devices[i].id in PickIds(cart) then st.devices[i].(status := LentTo(name)) else st.devices[i]
  {
    if cart == [] {
      assert st.details + NewDetails(loanId, cart) == st.details;
    } else {
      var init := cart[..|cart| - 1];
      var p := cart[|cart| - 1];
      CommitPicksSpec(st, loanId, name, init);
      assert cart == init + [p];
      PickIdsSnoc(init, p);
      assert NewDetails(loanId, cart) == NewDetails(loanId, init) + [DetailFor(loanId, p)];
    }
  }

  /**
   * Committing an empty cart changes nothing. Otherwise exactly one loan is
   * added, one line per cart entry in cart order, and exactly the units of
   * the cart read `ausgeliehen an <name>`; every other row stays.
   */
  lemma CommitSpec(st: Store, cart: seq<Pick>, loanId: string, b: Borrower, date: string)
    ensures var r := Commit(st, cart, loanId, b, date);
      && (cart == [] ==> r == st)
      && (cart != [] ==>
            && r.loans == st.loans + [NewLoan(loanId, b, date)]
            && r.details == st.details + NewDetails(loanId, cart)
            && |r.devices| == |st.devices|
            && forall i :: 0 <= i < |st.devices| ==>
                 r.devices[i] == if st.devices[i].id in PickIds(cart) then st.devices[i].(status := LentTo(b.name)) else st.devices[i])
  {
    if cart != [] {
      CommitPicksSpec(st.(loans := st.loans + [NewLoan(loanId, b, date)]), loanId, b.name, cart);
    }
  }

  /** A committed unit is no longer `verfügbar`, so no barcode can put it into a cart again. */
  lemma CommittedNotAddable(st: Store, cart: seq<Pick>, loanId: string, b: Borrower, date: string, next: seq<Pick>, barcode: string)
    ensures var r := Commit(st, cart, loanId, b, date);
      forall p :: p in AddDevice(r.devices, next, barcode) && p !in next ==> p.id !in PickIds(cart)
  {
    var r := Commit(st, cart, loanId, b, date);
    CommitSpec(st, cart, loanId, b, date);
    match FindAvailable(r.devices, barcode)
    case None =>
    case Some(u) =>
      var k :| 0 <= k < |r.devices| && r.devices[k] == u;
      if cart != [] && u.id in PickIds(cart) {
        assert false;
      }
  }

  /** Writing statuses keeps the keys unique. */
  lemma UnitStatusKeys(a: seq<Unit>, b: seq<Unit>)
    requires UnitKeysUnique(a) && |a| == |b|
    requires forall i :: 0 <= i < |a| ==> b[i].id == a[i].id && b[i].barcode == a[i].barcode
    ensures UnitKeysUnique(b)
  {
  }

  /** `DELETE FROM ausleih_details WHERE ausleih_id = ? AND geraet_id = ?`. */
  function DropDetails(details: seq<Detail>, loanId: string, d: int): seq<Detail> {
    if details == [] then []
    else
      var last := details[|details| - 1];
      DropDetails(details[..|details| - 1], loanId, d) + (if last.loanId == loanId && last.deviceId == d then [] else [last])
  }

  /** The return loop: the unit becomes `verfügbar`, then its line of the loan is deleted. */
  function ReturnUnits(st: Store, loanId: string, ids: seq<int>): Store {
    if ids == [] then st
    else
      var prev := ReturnUnits(st, loanId, ids[..|ids| - 1]);
      var d := ids[|ids| - 1];
      prev.(devices := SetUnitStatus(prev.devices, d, StatusAvailable), details := DropDetails(prev.details, loanId, d))
  }

  /** `SELECT COUNT(*) FROM ausleih_details WHERE ausleih_id = ?`. */
  function CountDetails(details: seq<Detail>, loanId: string): nat {
    if details == [] then 0
    else CountDetails(details[..|details| - 1], loanId) + (if details[|details| - 1].loanId == loanId then 1 else 0)
  }

  /** `complete_return` of app.py. */
  function Return(st: Store, loanId: string, ids: seq<int>): Store {
    var r := ReturnUnits(st, loanId, ids);
    if CountDetails(r.details, loanId) == 0 then r.(loans := CloseLoan(r.loans, loanId)) else r
  }

  /** Reference definition: the lines that are not one of the listed units on this loan. */
  function KeptDetails(details: seq<Detail>, loanId: string, ids: seq<int>): (r: seq<Detail>)
    ensures forall i :: 0 <= i < |r| ==> !(r[i].loanId == loanId && r[i].deviceId in ids)
  {
    if details == [] then []
    else
      var last := details[|details| - 1];
      KeptDetails(details[..|details| - 1], loanId, ids) + (if last.loanId == loanId && last.deviceId in ids then [] else [last])
  }

  lemma {:induction false} DropKeptDetails(details: seq<Detail>, loanId: string, ids: seq<int>, d: int)
    ensures DropDetails(KeptDetails(details, loanId, ids), loanId, d) == KeptDetails(details, loanId, ids + [d])
  {
    if details != [] {
      var init := details[..|details| - 1];
      var last := details[|details| - 1];
      DropKeptDetails(init, loanId, ids, d);
      var k := KeptDetails(init, loanId, ids);
      if last.loanId == loanId && last.deviceId in ids {
        assert KeptDetails(details, loanId, ids) == k + [];
        assert k + [] == k;
        assert KeptDetails(details, loanId, ids + [d]) == KeptDetails(init, loanId, ids + [d]) + [];
      } else {
        var kl := k + [last];
        assert kl[..|kl| - 1] == k;
      }
    }
  }

  lemma {:induction false} ReturnUnitsSpec(st: Store, loanId: string, ids: seq<int>)
    ensures var r := ReturnUnits(st, loanId, ids);
      && r.loans == st.loans
      && r.details == KeptDetails(st.details, loanId, ids)
      && |r.devices| == |st.devices|
      && forall i :: 0 <= i < |st.devices| ==>
           r.devices[i] == if st.devices[i].id in ids then st.devices[i].(status := StatusAvailable) else st.devices[i]
  {
    if ids == [] {
      KeptDetailsNone(st.details, loanId);
    } else {
      var init := ids[..|ids| - 1];
      var d := ids[|ids| - 1];
      ReturnUnitsSpec(st, loanId, init);
      DropKeptDetails(st.details, loanId, init, d);
      assert ids == init + [d];
    }
  }

  lemma {:induction false} KeptDetailsNone(details: seq<Detail>, loanId: string)
    ensures KeptDetails(details, loanId, []) == details
  {
    if details != [] {
      KeptDetailsNone(details[..|details| - 1], loanId);
    }
  }

  lemma {:induction false} CountDetailsZero(details: seq<Detail>, loanId: string)
    ensures CountDetails(details, loanId) == 0 <==> forall i :: 0 <= i < |details| ==> details[i].loanId != loanId
  {
    if details != [] {
      var init := details[..|details| - 1];
      CountDetailsZero(init, loanId);
      assert forall i :: 0 <= i < |init| ==> init[i] == details[i];
    }
  }

  /**
   * After a return no line of the loan remains for a listed unit and every
   * other line stays in order; each listed unit reads `verfügbar`, whether
   * or not it was on this loan, and the others keep their status; the loan's
   * rows become `zurückgegeben` exactly when the loan has no line left.
   */
  lemma ReturnSpec(st: Store, loanId: string, ids: seq<int>)
    ensures var r := Return(st, loanId, ids);
      && r.details == KeptDetails(st.details, loanId, ids)
      && |r.devices| == |st.devices|
      && (forall i :: 0 <= i < |st.devices| ==>
            r.devices[i] == if st.devices[i].id in ids then st.devices[i].(status := StatusAvailable) else st.devices[i])
      && |r.loans| == |st.loans|
      && (forall j :: 0 <= j < |st.loans| ==>
            if st.loans[j].loanId == loanId && forall i :: 0 <= i < |r.details| ==> r.details[i].loanId != loanId
            then r.loans[j] == st.loans[j].(status := LoanReturned)
            else r.loans[j] == st.loans[j])
  {
    ReturnUnitsSpec(st, loanId, ids);
    CountDetailsZero(ReturnUnits(st, loanId, ids).details, loanId);
  }

  lemma {:induction false} KeptDetailsAll(details: seq<Detail>, loanId: string, ids: seq<int>)
    requires forall i :: 0 <= i < |details| ==> !(details[i].loanId == loanId && details[i].deviceId in ids)
    ensures KeptDetails(details, loanId, ids) == details
  {
    if details != [] {
      KeptDetailsAll(details[..|details| - 1], loanId, ids);
    }
  }

  /** Submitting the same return twice has the effect of submitting it once. */
  lemma ReturnIdempotent(st: Store, loanId: string, ids: seq<int>)
    ensures Return(Return(st, loanId, ids), loanId, ids) == Return(st, loanId, ids)
  {
    var r := Return(st, loanId, ids);
    var rr := Return(r, loanId, ids);
    ReturnSpec(st, loanId, ids);
    ReturnSpec(r, loanId, ids);
    KeptDetailsAll(r.details, loanId, ids);
    assert rr.details == r.details;
    assert rr.devices == r.devices;
    assert rr.loans == r.loans;
  }

  /** The submitted fields of app.py's edit form the ledger uses. */
  datatype UnitForm = UnitForm(name: string, barcode: string, description: string, defective: bool)

  datatype UnitEdited = UnitEdited(st: Store, outcome: EditOutcome)

  predicate UnitBarcodeTaken(devices: seq<Unit>, barcode: string, id: int) {
    exists i :: 0 <= i < |devices| && devices[i].barcode == barcode && devices[i].id != id
  }

  function FindUnit(devices: seq<Unit>, d: int): (r: Option<Unit>)
    ensures r.Some? ==> r.value in devices && r.value.id == d
    ensures r.None? <==> forall i :: 0 <= i < |devices| ==> devices[i].id != d
  {
    if devices == [] then None
    else if devices[0].id == d then Some(devices[0])
    else FindUnit(devices[1..], d)
  }

  /** The `UPDATE geraete SET ... WHERE id = ?` of app.py's edit. */
  function OverwriteUnit(devices: seq<Unit>, id: int, form: UnitForm, description: string): (r: seq<Unit>)
    ensures |r| == |devices|
    ensures forall i :: 0 <= i < |devices| ==>
      r[i] == if devices[i].id == id
              then devices[i].(name := form.name, barcode := form.barcode, description := description,
                               status := if form.defective then StatusDefective else StatusAvailable)
              else devices[i]
  {
    seq(|devices|, i requires 0 <= i < |devices| =>
      if devices[i].id == id
      then devices[i].(name := form.name, barcode := form.barcode, description := description,
                       status := if form.defective then StatusDefective else StatusAvailable)
      else devices[i])
  }

  /** The POST branch of app.py's `edit_device`; the status is written from the form alone. */
  function EditUnit(st: Store, id: int, form: UnitForm, timestamp: string, user: string): UnitEdited {
    if UnitBarcodeTaken(st.devices, form.barcode, id) then UnitEdited(st, BarcodeInUse)
    else
      match FindUnit(st.devices, id)
      case None => UnitEdited(st, NoSuchDevice)
      case Some(u) =>
        var description := UpdatedDescription(u.description, form.description, timestamp, user);
        UnitEdited(st.(devices := OverwriteUnit(st.devices, id, form, description)), Saved)
  }

  /**
   * A barcode of another unit rejects the edit and nothing changes. A saved
   * edit writes `defekt` or `verfügbar` from the check box alone, even while
   * the unit is on an open loan, and gains a log entry only when the
   * description changed; loans, lines and other units are untouched.
   */
  lemma EditUnitSpec(st: Store, id: int, form: UnitForm, timestamp: string, user: string)
    ensures var e := EditUnit(st, id, form, timestamp, user);
      && (e.outcome == BarcodeInUse <==> UnitBarcodeTaken(st.devices, form.barcode, id))
      && (e.outcome == NoSuchDevice <==> !UnitBarcodeTaken(st.devices, form.barcode, id) && FindUnit(st.devices, id).None?)
      && (e.outcome != Saved ==> e.st == st)
      && (e.outcome == Saved ==>
            var prior := FindUnit(st.devices, id).value;
            && e.st.loans == st.loans && e.st.details == st.details
            && |e.st.devices| == |st.devices|
            && forall i :: 0 <= i < |st.devices| ==>
                 if st.devices[i].id == id then
                   var u := e.st.devices[i];
                   && u.id == id && u.name == form.name && u.barcode == form.barcode
                   && u.description == (if form.description == prior.description then prior.description
                                        else UpdatedDescription(prior.description, form.description, timestamp, user))
                   && u.status == (if form.defective then StatusDefective else StatusAvailable)
                 else e.st.devices[i] == st.devices[i])
  {
  }

  /** Edits keep unit ids and barcodes unique. */
  lemma EditUnitKeysUnique(st: Store, id: int, form: UnitForm, timestamp: string, user: string)
    requires UnitKeysUnique(st.devices)
    ensures UnitKeysUnique(EditUnit(st, id, form, timestamp, user).st.devices)
  {
    var e := EditUnit(st, id, form, timestamp, user);
    if e.outcome == Saved {
      var r := e.st.devices;
      forall a, b | 0 <= a < b < |r| ensures r[a].id != r[b].id && r[a].barcode != r[b].barcode {
        assert r[a].id == st.devices[a].id && r[b].id == st.devices[b].id;
        if st.devices[a].id != id && st.devices[b].id != id {
          assert r[a] == st.devices[a] && r[b] == st.devices[b];
        }
      }
    }
  }

  /** app.py's `remove_from_borrow`: `[d for d in borrow_list if d['id'] != device_id]`. */
  function RemovePick(cart: seq<Pick>, id: int): (r: seq<Pick>)
    ensures forall i :: 0 <= i < |r| ==> r[i].id != id && r[i] in cart
  {
    if cart == [] then []
    else RemovePick(cart[..|cart| - 1], id) + (if cart[|cart| - 1].id == id then [] else [cart[|cart| - 1]])
  }

  /** The filter works entry by entry, left to right, so the kept entries stay in order. */
  lemma {:induction false} RemovePickAppend(a: seq<Pick>, b: seq<Pick>, id: int)
    ensures RemovePick(a + b, id) == RemovePick(a, id) + RemovePick(b, id)
    decreases |b|
  {
    if b == [] {
      assert a + b == a;
    } else {
      var b' := b[..|b| - 1];
      assert (a + b)[..|a + b| - 1] == a + b';
      RemovePickAppend(a, b', id);
    }
  }

  lemma RemovePickSingle(p: Pick, id: int)
    ensures RemovePick([p], id) == if p.id == id then [] else [p]
  {
    assert [p][..0] == [];
  }

  /** An entry survives exactly when it is for another unit. */
  lemma {:induction false} RemovePickMembers(cart: seq<Pick>, id: int, p: Pick)
    ensures p in RemovePick(cart, id) <==> p in cart && p.id != id
  {
    if cart != [] {
      var init := cart[..|cart| - 1];
      RemovePickMembers(init, id, p);
      assert cart == init + [cart[|cart| - 1]];
    }
  }

  lemma {:induction false} RemovePickDistinct(cart: seq<Pick>, id: int)
    requires DistinctPicks(cart)
    ensures DistinctPicks(RemovePick(cart, id))
  {
    if cart != [] {
      var init := cart[..|cart| - 1];
      var last := cart[|cart| - 1];
      RemovePickDistinct(init, id);
      var r := RemovePick(init, id);
      forall i | 0 <= i < |r| ensures r[i].id != last.id {
        var j :| 0 <= j < |init| && init[j] == r[i];
        assert cart[j] == init[j];
      }
    }
  }
}
