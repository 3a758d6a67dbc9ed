/**
 * Committing the cart as a loan (`complete_borrow`) and returning devices of a
 * loan (`complete_return`) in main.py.
 */
module Borrowing {
  import opened Wrappers
  import opened Grouping
  import opened Ledger
  import opened BorrowCart

  /** Who borrows: the session user in a personal warehouse, the form's fields otherwise. */
  datatype Borrower = Borrower(id: string, name: string, email: Option<string>, klasse: Option<string>)

  /** The `ausleihen` row a commit inserts; the return code is the loan id. */
  function NewLoan(loanId: string, b: Borrower, date: string): Loan {
    Loan(loanId, b.id, b.name, "N/A", date, loanId, b.email, b.klasse, LoanActive)
  }

  function LineFor(loanId: string, e: CartEntry): Line {
    Line(loanId, e.id, e.barcode, e.quantity)
  }

  /** One line per cart entry, in cart order, carrying the entry's quantity. */
  function NewLines(loanId: string, cart: seq<CartEntry>): (r: seq<Line>)
    ensures |r| == |cart| && forall i :: 0 <= i < |cart| ==> r[i] == LineFor(loanId, cart[i])
  {
    seq(|cart|, i requires 0 <= i < |cart| => LineFor(loanId, cart[i]))
  }

  /** The commit loop: insert the entry's line, then recompute that device's status. */
  function CommitLines(db: Db, loanId: string, cart: seq<CartEntry>): Db {
    if cart == [] then db
    else
      var prev := CommitLines(db, loanId, cart[..|cart| - 1]);
      var e := cart[|cart| - 1];
      UpdateDeviceStatus(prev.(lines := prev.lines + [LineFor(loanId, e)]), e.id)
  }

  /** `complete_borrow`: nothing for an empty cart, otherwise a new loan with one line per entry. */
  function Commit(db: Db, cart: seq<CartEntry>, loanId: string, b: Borrower, date: string): Db {
    if cart == [] then db
    else CommitLines(db.(loans := db.loans + [NewLoan(loanId, b, date)]), loanId, cart)
  }

  /**
   * The commit loop appends exactly the cart's lines, touches no loan and no
   * column but the status, and leaves devices outside the cart alone.
   */
  lemma {:induction false} CommitLinesTables(db: Db, loanId: string, cart: seq<CartEntry>)
    ensures var r := CommitLines(db, loanId, cart);
      && r.loans == db.loans
      && r.lines == db.lines + NewLines(loanId, cart)
      && SameButStatus(db.devices, r.devices)
      && (forall i :: 0 <= i < |db.devices| && db.devices[i].id !in CartIds(cart) ==> r.devices[i] == db.devices[i])
  {
    if cart != [] {
      var init := cart[..|cart| - 1];
      var e := cart[|cart| - 1];
      CommitLinesTables(db, loanId, init);
      CartIdsSnoc(init, e);
      assert init + [e] == cart;
      assert NewLines(loanId, cart) == NewLines(loanId, init) + [LineFor(loanId, e)];
      var prev := CommitLines(db, loanId, init);
      var r := CommitLines(db, loanId, cart);
      var mid := prev.(lines := prev.lines + [LineFor(loanId, e)]);
      assert r == UpdateDeviceStatus(mid, e.id);
      StatusOnly(mid, e.id);
      SameButStatusTrans(db.devices, prev.devices, r.devices);
    }
  }

  /** Every cart device is left with the status the final tables give it. */
  lemma {:induction false} CommitLinesStatus(db: Db, loanId: string, cart: seq<CartEntry>)
    ensures var r := CommitLines(db, loanId, cart);
      forall d :: d in CartIds(cart) ==> StatusCurrent(r, d)
  {
    if cart != [] {
      var init := cart[..|cart| - 1];
      var e := cart[|cart| - 1];
      CommitLinesStatus(db, loanId, init);
      var prev := CommitLines(db, loanId, init);
      var l := LineFor(loanId, e);
      var mid := prev.(lines := prev.lines + [l]);
      var r := CommitLines(db, loanId, cart);
      assert r == UpdateDeviceStatus(mid, e.id);
      CartIdsSnoc(init, e);
      assert init + [e] == cart;
      forall d | d in CartIds(cart) ensures StatusCurrent(r, d) {
        if d == e.id {
          UpdateMakesCurrent(mid, d);
        } else {
          assert d in CartIds(init);
          JoinedOtherLine(prev.loans, prev.lines, l, d);
          SameJoinKeepsCurrent(prev, prev.lines + [l], d);
          UpdateKeepsCurrent(mid, e.id, d);
        }
      }
    }
  }

  /**
   * An empty cart changes nothing; otherwise exactly one loan row, active and
   * for the borrower, and one line per cart entry are added, and every cart
   * device's status is recomputed from them.
   */
  lemma CommitSpec(db: Db, cart: seq<CartEntry>, loanId: string, b: Borrower, date: string)
    ensures var r := Commit(db, cart, loanId, b, date);
      && (cart == [] ==> r == db)
      && (cart != [] ==>
            && r.loans == db.loans + [NewLoan(loanId, b, date)]
            && r.lines == db.lines + NewLines(loanId, cart)
            && SameButStatus(db.devices, r.devices)
            && (forall i :: 0 <= i < |db.devices| && db.devices[i].id !in CartIds(cart) ==> r.devices[i] == db.devices[i])
            && (forall d :: d in CartIds(cart) ==> StatusCurrent(r, d)))
  {
    if cart != [] {
      CommitLinesTables(db.(loans := db.loans + [NewLoan(loanId, b, date)]), loanId, cart);
      CommitLinesStatus(db.(loans := db.loans + [NewLoan(loanId, b, date)]), loanId, cart);
    }
  }

  /** No loan row and no line uses the id yet. */
  predicate FreshLoanId(db: Db, loanId: string) {
    (forall j :: 0 <= j < |db.loans| ==> db.loans[j].loanId != loanId)
    && (forall i :: 0 <= i < |db.lines| ==> db.lines[i].loanId != loanId)
  }

  lemma {:induction false} NewLinesJoined(loans: seq<Loan>, nl: Loan, cart: seq<CartEntry>, d: int)
    requires nl.status == LoanActive
    requires forall j :: 0 <= j < |loans| ==> loans[j].loanId != nl.loanId
    ensures TotalWeight(Joined(loans + [nl], NewLines(nl.loanId, cart), d)) == CartQty(cart, d)
  {
    if cart != [] {
      var init := cart[..|cart| - 1];
      var e := cart[|cart| - 1];
      NewLinesJoined(loans, nl, init, d);
      var ls := NewLines(nl.loanId, cart);
      var l := LineFor(nl.loanId, e);
      assert ls[..|ls| - 1] == NewLines(nl.loanId, init);
      assert ls[|ls| - 1] == l;
      MatchesOfNewLoan(loans, nl, l);
      var m := Matches(loans + [nl], l);
      var tail := if e.id == d then m else [];
      assert Joined(loans + [nl], ls, d) == Joined(loans + [nl], NewLines(nl.loanId, init), d) + tail;
      WeightOfAppend(Joined(loans + [nl], NewLines(nl.loanId, init), d), tail, "");
    }
  }

  /** A line of the new loan joins exactly once, with the new loan row. */
  lemma MatchesOfNewLoan(loans: seq<Loan>, nl: Loan, l: Line)
    requires nl.status == LoanActive && l.loanId == nl.loanId
    requires forall j :: 0 <= j < |loans| ==> loans[j].loanId != nl.loanId
    ensures Matches(loans + [nl], l) == [Tagged(nl.borrowerName, l, l.quantity)]
    ensures TotalWeight(Matches(loans + [nl], l)) == l.quantity
  {
    MatchesEmpty(loans, l);
    assert (loans + [nl])[..|loans|] == loans;
    var m := Matches(loans + [nl], l);
    assert m == [Tagged(nl.borrowerName, l, l.quantity)];
    assert m[..0] == [];
  }

  /**
   * With a fresh loan id, a commit puts exactly the cart's units of each device
   * out on loan, on top of what was out before.
   */
  lemma CommitBorrowed(db: Db, cart: seq<CartEntry>, loanId: string, b: Borrower, date: string, d: int)
    requires FreshLoanId(db, loanId)
    ensures var r := Commit(db, cart, loanId, b, date);
      Borrowed(r.loans, r.lines, d) == Borrowed(db.loans, db.lines, d) + CartQty(cart, d)
  {
    CommitSpec(db, cart, loanId, b, date);
    if cart != [] {
      var nl := NewLoan(loanId, b, date);
      var loans := db.loans + [nl];
      JoinedAppend(loans, db.lines, NewLines(loanId, cart), d);
      JoinedNewLoan(db.loans, db.lines, nl, d);
      WeightOfAppend(Joined(loans, db.lines, d), Joined(loans, NewLines(loanId, cart), d), "");
      NewLinesJoined(db.loans, nl, cart, d);
    }
  }

  /** The stock ceiling: no device has more units out on active loans than it has. */
  predicate WithinStock(db: Db) {
    forall i :: 0 <= i < |db.devices| ==> Borrowed(db.loans, db.lines, db.devices[i].id) <= db.devices[i].quantity
  }

  /**
   * A commit never lends more units than a device has, provided the cart was
   * still within what is available when it is committed and the loan id is fresh.
   * Devices outside the cart keep their units out, so when the keys are unique
   * and every device was within its stock before, every device is after.
   */
  lemma CommitWithinStock(db: Db, cart: seq<CartEntry>, loanId: string, b: Borrower, date: string)
    requires FreshLoanId(db, loanId) && DistinctIds(cart) && WithinAvailability(db, cart)
    ensures var r := Commit(db, cart, loanId, b, date);
      forall k :: 0 <= k < |cart| ==>
        Borrowed(r.loans, r.lines, cart[k].id) <= FindById(db.devices, cart[k].id).value.quantity
    ensures KeysUnique(db.devices) && WithinStock(db) ==> WithinStock(Commit(db, cart, loanId, b, date))
  {
    var r := Commit(db, cart, loanId, b, date);
    forall k | 0 <= k < |cart|
      ensures Borrowed(r.loans, r.lines, cart[k].id) <= FindById(db.devices, cart[k].id).value.quantity
    {
      CommitBorrowed(db, cart, loanId, b, date, cart[k].id);
      CartQtyDistinct(cart, k);
    }
    if KeysUnique(db.devices) && WithinStock(db) {
      CommitSpec(db, cart, loanId, b, date);
      forall i | 0 <= i < |r.devices| ensures Borrowed(r.loans, r.lines, r.devices[i].id) <= r.devices[i].quantity {
        assert r.devices[i].(status := "") == db.devices[i].(status := "");
        CommitDeviceWithinStock(db, cart, loanId, b, date, i);
      }
    }
  }

  /** One device of the table after a commit: the cart's units of it still fit its stock. */
  lemma CommitDeviceWithinStock(db: Db, cart: seq<CartEntry>, loanId: string, b: Borrower, date: string, i: nat)
    requires FreshLoanId(db, loanId) && DistinctIds(cart) && WithinAvailability(db, cart) && KeysUnique(db.devices)
    requires i < |db.devices| && Borrowed(db.loans, db.lines, db.devices[i].id) <= db.devices[i].quantity
    ensures var r := Commit(db, cart, loanId, b, date);
      Borrowed(r.loans, r.lines, db.devices[i].id) <= db.devices[i].quantity
  {
    var d := db.devices[i].id;
    CommitBorrowed(db, cart, loanId, b, date, d);
    if k :| 0 <= k < |cart| && cart[k].id == d {
      CartQtyDistinct(cart, k);
      FindByIdUnique(db.devices, i);
    } else {
      CartQtyAbsent(cart, d);
    }
  }

  /** The rows a one-entry commit adds, without the statuses it recomputes. */
  lemma CommitOneRows(db: Db, e: CartEntry, loanId: string, b: Borrower, date: string)
    ensures var r := Commit(db, [e], loanId, b, date);
      r.loans == db.loans + [NewLoan(loanId, b, date)] && r.lines == db.lines + [LineFor(loanId, e)]
  {
    CommitSpec(db, [e], loanId, b, date);
  }

  /**
   * Why `CommitWithinStock` needs the cart to be within availability at commit:
   * in a warehouse whose one device has a stock of one and nothing is lent, two
   * sessions cart that unit while it is free and both commit under fresh ids;
   * two units are then out.
   */
  lemma StaleCartExceedsStock(dev: Device, e: CartEntry, b: Borrower, date: string)
    requires dev.id == e.id && dev.quantity == 1 && e.quantity == 1
    ensures var db := Db([dev], [], []);
      var first := Commit(db, [e], "0001", b, date);
      var second := Commit(first, [e], "0002", b, date);
      && WithinAvailability(db, [e])
      && Borrowed(second.loans, second.lines, e.id) == 2 > dev.quantity
  {
    CommitOneRows(Db([dev], [], []), e, "0001", b, date);
    CommitOneRows(Commit(Db([dev], [], []), [e], "0001", b, date), e, "0002", b, date);
    var l1, l2, ln1, ln2 := NewLoan("0001", b, date), NewLoan("0002", b, date), LineFor("0001", e), LineFor("0002", e);
    assert [] + [l1] + [l2] == [l1, l2] && [] + [ln1] + [ln2] == [ln1, ln2];
    TwoLoansJoin(l1, l2, ln1, ln2);
  }

  /** Two active loans with one one-unit line each of the same device: two units out. */
  lemma TwoLoansJoin(l1: Loan, l2: Loan, ln1: Line, ln2: Line)
    requires l1.status == LoanActive && l2.status == LoanActive && l1.loanId != l2.loanId
    requires ln1.loanId == l1.loanId && ln2.loanId == l2.loanId
    requires ln1.deviceId == ln2.deviceId && ln1.quantity == 1 && ln2.quantity == 1
    ensures Borrowed([l1, l2], [ln1, ln2], ln1.deviceId) == 2
  {
    var t1 := Tagged(l1.borrowerName, ln1, 1);
    var t2 := Tagged(l2.borrowerName, ln2, 1);
    TwoLoansMatch(l1, l2, ln1, ln2);
    assert [ln1, ln2][..1] == [ln1] && [ln1][..0] == [];
    assert Joined([l1, l2], [ln1], ln1.deviceId) == [t1];
    assert Joined([l1, l2], [ln1, ln2], ln1.deviceId) == [t1] + [t2] == [t1, t2];
    assert [t1, t2][..1] == [t1] && [t1][..0] == [];
    assert TotalWeight([t1]) == 1;
  }

  /** Each of two lines meets only the loan row carrying its own id. */
  lemma TwoLoansMatch(l1: Loan, l2: Loan, ln1: Line, ln2: Line)
    requires l1.status == LoanActive && l2.status == LoanActive && l1.loanId != l2.loanId
    requires ln1.loanId == l1.loanId && ln2.loanId == l2.loanId && ln1.quantity == 1 && ln2.quantity == 1
    ensures Matches([l1, l2], ln1) == [Tagged(l1.borrowerName, ln1, 1)]
    ensures Matches([l1, l2], ln2) == [Tagged(l2.borrowerName, ln2, 1)]
  {
    assert [l1, l2][..1] == [l1] && [l1][..0] == [];
    assert Matches([l1], ln1) == [Tagged(l1.borrowerName, ln1, 1)];
    assert Matches([l1], ln2) == [];
  }

  /**
   * Why `CommitBorrowed` needs a fresh loan id: committing the same one-unit
   * cart twice under one id joins each of the two lines with both loan rows,
   * so four units are counted out where the carts hold two.
   */
  lemma ReusedLoanIdOvercounts(devices: seq<Device>, e: CartEntry, loanId: string, b: Borrower, date: string)
    requires e.quantity == 1
    ensures var first := Commit(Db(devices, [], []), [e], loanId, b, date);
      Borrowed(first.loans, first.lines, e.id) + CartQty([e], e.id) == 2
    ensures var first := Commit(Db(devices, [], []), [e], loanId, b, date);
      var second := Commit(first, [e], loanId, b, date);
      Borrowed(second.loans, second.lines, e.id) == 4
  {
    assert [e][..0] == [];
    CommitOneRows(Db(devices, [], []), e, loanId, b, date);
    CommitOneRows(Commit(Db(devices, [], []), [e], loanId, b, date), e, loanId, b, date);
    var nl, ln := NewLoan(loanId, b, date), LineFor(loanId, e);
    assert [] + [nl] + [nl] == [nl, nl] && [] + [ln] + [ln] == [ln, ln];
    DoubledJoin(nl, ln);
  }

  /**
   * One active loan row with its one-unit line joins once; two copies of each
   * join four times.
   */
  lemma DoubledJoin(nl: Loan, ln: Line)
    requires nl.status == LoanActive && nl.loanId == ln.loanId && ln.quantity == 1
    ensures Borrowed([nl], [ln], ln.deviceId) == 1
    ensures Borrowed([nl, nl], [ln, ln], ln.deviceId) == 4
  {
    var t := Tagged(nl.borrowerName, ln, 1);
    assert Matches([nl], ln) == [t] by {
      assert [nl][..0] == [];
    }
    assert Joined([nl], [ln], ln.deviceId) == [t] by {
      assert [ln][..0] == [];
    }
    assert Matches([nl, nl], ln) == [t, t] by {
      assert [nl, nl][..1] == [nl];
    }
    assert Joined([nl, nl], [ln], ln.deviceId) == [t, t] by {
      assert [ln][..0] == [];
    }
    assert Joined([nl, nl], [ln, ln], ln.deviceId) == [t, t] + [t, t] by {
      assert [ln, ln][..1] == [ln];
    }
    assert [t, t] + [t, t] == [t, t, t, t];
    assert TotalWeight([t]) == 1 by {
      assert [t][..0] == [];
    }
    assert TotalWeight([t, t]) == 2 by {
      assert [t, t][..1] == [t];
    }
    assert TotalWeight([t, t, t]) == 3 by {
      assert [t, t, t][..2] == [t, t];
    }
    assert TotalWeight([t, t, t, t]) == 4 by {
      assert [t, t, t, t][..3] == [t, t, t];
    }
  }

  /** `DELETE FROM ausleih_details WHERE ausleih_id = ? AND geraet_id = ?`. */
  function DropLines(lines: seq<Line>, loanId: string, d: int): seq<Line> {
    if lines == [] then []
    else
      var last := lines[|lines| - 1];
      DropLines(lines[..|lines| - 1], loanId, d) + (if last.loanId == loanId && last.deviceId == d then [] else [last])
  }

  /** The return loop: delete the device's lines of the loan, then recompute its status. */
  function ReturnLines(db: Db, loanId: string, ids: seq<int>): Db {
    if ids == [] then db
    else
      var prev := ReturnLines(db, loanId, ids[..|ids| - 1]);
      var d := ids[|ids| - 1];
      UpdateDeviceStatus(prev.(lines := DropLines(prev.lines, loanId, d)), d)
  }

  /** `SELECT COUNT(*) FROM ausleih_details WHERE ausleih_id = ?`. */
  function CountLines(lines: seq<Line>, loanId: string): nat {
    if lines == [] then 0
    else CountLines(lines[..|lines| - 1], loanId) + (if lines[|lines| - 1].loanId == loanId then 1 else 0)
  }

  /** `UPDATE ausleihen SET status = 'zurückgegeben' WHERE ausleih_id = ?`. */
  function CloseLoan(loans: seq<Loan>, loanId: string): (r: seq<Loan>)
    ensures |r| == |loans|
    ensures forall j :: 0 <= j < |loans| ==> r[j] == if loans[j].loanId == loanId then loans[j].(status := LoanReturned) else loans[j]
  {
    seq(|loans|, j requires 0 <= j < |loans| => if loans[j].loanId == loanId then loans[j].(status := LoanReturned) else loans[j])
  }

  /** `complete_return`: return the listed devices and close the loan once no line is left. */
  function Return(db: Db, loanId: string, ids: seq<int>): Db {
    var r := ReturnLines(db, loanId, ids);
    if CountLines(r.lines, loanId) == 0 then r.(loans := CloseLoan(r.loans, loanId)) else r
  }

  /** Reference definition: the lines that are not one of the listed devices on this loan. */
  function Kept(lines: seq<Line>, loanId: string, ids: seq<int>): (r: seq<Line>)
    ensures forall i :: 0 <= i < |r| ==> !(r[i].loanId == loanId && r[i].deviceId in ids)
  {
    if lines == [] then []
    else
      var last := lines[|lines| - 1];
      Kept(lines[..|lines| - 1], loanId, ids) + (if last.loanId == loanId && last.deviceId in ids then [] else [last])
  }

  lemma {:induction false} DropKept(lines: seq<Line>, loanId: string, ids: seq<int>, d: int)
    ensures DropLines(Kept(lines, loanId, ids), loanId, d) == Kept(lines, loanId, ids + [d])
  {
    if lines != [] {
      var init := lines[..|lines| - 1];
      var last := lines[|lines| - 1];
      DropKept(init, loanId, ids, d);
      var k := Kept(init, loanId, ids);
      assert (last.deviceId in ids + [d]) == (last.deviceId in ids || last.deviceId == d);
      if last.loanId == loanId && last.deviceId in ids {
        assert Kept(lines, loanId, ids) == k + [];
        assert k + [] == k;
        assert Kept(lines, loanId, ids + [d]) == Kept(init, loanId, ids + [d]) + [];
      } else {
        var k' := k + [last];
        assert Kept(lines, loanId, ids) == k';
        assert k'[..|k'| - 1] == k;
        assert k'[|k'| - 1] == last;
      }
    }
  }

  lemma {:induction false} KeptNone(lines: seq<Line>, loanId: string)
    ensures Kept(lines, loanId, []) == lines
  {
    if lines != [] {
      KeptNone(lines[..|lines| - 1], loanId);
    }
  }

  /** Deleting another device's lines does not change a device's status. */
  lemma {:induction false} JoinedDropOther(loans: seq<Loan>, lines: seq<Line>, loanId: string, d': int, d: int)
    requires d' != d
    ensures Joined(loans, DropLines(lines, loanId, d'), d) == Joined(loans, lines, d)
  {
    if lines != [] {
      var init := lines[..|lines| - 1];
      var last := lines[|lines| - 1];
      JoinedDropOther(loans, init, loanId, d', d);
      var k := DropLines(init, loanId, d');
      if last.loanId == loanId && last.deviceId == d' {
        assert DropLines(lines, loanId, d') == k + [];
        assert k + [] == k;
        JoinedOtherLine(loans, init, last, d);
        assert lines == init + [last];
      } else {
        var k' := k + [last];
        assert DropLines(lines, loanId, d') == k';
        assert k'[..|k'| - 1] == k;
        assert k'[|k'| - 1] == last;
      }
    }
  }

  /**
   * The return loop deletes exactly the listed devices' lines of the loan,
   * touches no loan and no column but the status, leaves unlisted devices alone
   * and leaves every listed device with the status the final tables give it.
   */
  lemma {:induction false} ReturnLinesSpec(db: Db, loanId: string, ids: seq<int>)
    ensures var r := ReturnLines(db, loanId, ids);
      && r.loans == db.loans
      && r.lines == Kept(db.lines, loanId, ids)
      && SameButStatus(db.devices, r.devices)
      && (forall i :: 0 <= i < |db.devices| && db.devices[i].id !in ids ==> r.devices[i] == db.devices[i])
      && (forall d :: d in ids ==> StatusCurrent(r, d))
  {
    if ids == [] {
      KeptNone(db.lines, loanId);
    } else {
      var init := ids[..|ids| - 1];
      var d := ids[|ids| - 1];
      ReturnLinesSpec(db, loanId, init);
      var prev := ReturnLines(db, loanId, init);
      DropKept(db.lines, loanId, init, d);
      assert init + [d] == ids;
      var r := ReturnLines(db, loanId, ids);
      var mid := prev.(lines := DropLines(prev.lines, loanId, d));
      assert r == UpdateDeviceStatus(mid, d);
      StatusOnly(mid, d);
      SameButStatusTrans(db.devices, prev.devices, r.devices);
      forall x | x in ids ensures StatusCurrent(r, x) {
        if x == d {
          UpdateMakesCurrent(mid, d);
        } else {
          assert x in init;
          JoinedDropOther(prev.loans, prev.lines, loanId, d, x);
          SameJoinKeepsCurrent(prev, mid.lines, x);
          UpdateKeepsCurrent(mid, d, x);
        }
      }
    }
  }

  lemma {:induction false} CountLinesZero(lines: seq<Line>, loanId: string)
    ensures CountLines(lines, loanId) == 0 <==> forall i :: 0 <= i < |lines| ==> lines[i].loanId != loanId
  {
    if lines != [] {
      CountLinesZero(lines[..|lines| - 1], loanId);
      assert forall i :: 0 <= i < |lines| - 1 ==> lines[..|lines| - 1][i] == lines[i];
    }
  }

  /** Closing a loan no line refers to any more does not change a line's matches. */
  lemma {:induction false} MatchesClosed(loans: seq<Loan>, loanId: string, l: Line)
    requires l.loanId != loanId
    ensures Matches(CloseLoan(loans, loanId), l) == Matches(loans, l)
  {
    if loans != [] {
      var init := loans[..|loans| - 1];
      MatchesClosed(init, loanId, l);
      assert CloseLoan(loans, loanId)[..|loans| - 1] == CloseLoan(init, loanId);
    }
  }

  lemma {:induction false} JoinedClosed(loans: seq<Loan>, lines: seq<Line>, loanId: string, d: int)
    requires forall i :: 0 <= i < |lines| ==> lines[i].loanId != loanId
    ensures Joined(CloseLoan(loans, loanId), lines, d) == Joined(loans, lines, d)
  {
    if lines != [] {
      JoinedClosed(loans, lines[..|lines| - 1], loanId, d);
      MatchesClosed(loans, loanId, lines[|lines| - 1]);
    }
  }

  /**
   * After a return no line of the loan remains for a listed device and every
   * other line stays (in order); the loan's rows become `zurückgegeben` exactly
   * when the loan has no line left, other loans are untouched; listed devices
   * show the status of the final tables and unlisted ones keep theirs.
   */
  lemma ReturnSpec(db: Db, loanId: string, ids: seq<int>)
    ensures var r := Return(db, loanId, ids);
      && r.lines == Kept(db.lines, loanId, ids)
      && |r.loans| == |db.loans|
      && (forall j :: 0 <= j < |db.loans| ==>
            if db.loans[j].loanId == loanId && forall i :: 0 <= i < |r.lines| ==> r.lines[i].loanId != loanId
            then r.loans[j] == db.loans[j].(status := LoanReturned)
            else r.loans[j] == db.loans[j])
      && SameButStatus(db.devices, r.devices)
      && (forall i :: 0 <= i < |db.devices| && db.devices[i].id !in ids ==> r.devices[i] == db.devices[i])
      && (forall d :: d in ids ==> StatusCurrent(r, d))
  {
    ReturnLinesSpec(db, loanId, ids);
    var m := ReturnLines(db, loanId, ids);
    CountLinesZero(m.lines, loanId);
    if CountLines(m.lines, loanId) == 0 {
      forall d | d in ids ensures StatusCurrent(Return(db, loanId, ids), d) {
        JoinedClosed(m.loans, m.lines, loanId, d);
      }
    }
  }

  /** Rows whose weights are not negative weigh nothing negative together. */
  lemma {:induction false} TotalWeightNonNegative<T>(es: seq<Tagged<T>>)
    requires forall i :: 0 <= i < |es| ==> es[i].weight >= 0
    ensures TotalWeight(es) >= 0
  {
    if es != [] {
      TotalWeightNonNegative(es[..|es| - 1]);
    }
  }

  /** Deleting lines never puts more units out, as long as no line has a negative quantity. */
  lemma {:induction false} KeptBorrowed(loans: seq<Loan>, lines: seq<Line>, loanId: string, ids: seq<int>, d: int)
    requires forall i :: 0 <= i < |lines| ==> lines[i].quantity >= 0
    ensures Borrowed(loans, Kept(lines, loanId, ids), d) <= Borrowed(loans, lines, d)
  {
    if lines != [] {
      var init := lines[..|lines| - 1];
      var last := lines[|lines| - 1];
      KeptBorrowed(loans, init, loanId, ids, d);
      var tail := if last.loanId == loanId && last.deviceId in ids then [] else [last];
      var own := if last.deviceId == d then Matches(loans, last) else [];
      var kept := Kept(init, loanId, ids);
      assert Kept(lines, loanId, ids) == kept + tail;
      assert Joined(loans, lines, d) == Joined(loans, init, d) + own;
      JoinedAppend(loans, kept, tail, d);
      TotalWeightAppend(Joined(loans, kept, d), Joined(loans, tail, d));
      TotalWeightAppend(Joined(loans, init, d), own);
      TotalWeightNonNegative(own);
      if tail != [] {
        assert tail[..0] == [];
        assert Joined(loans, tail, d) == own;
      }
    }
  }

  /**
   * A return never puts more units of a device out than before: it only deletes
   * lines and closes a loan none of whose lines remain.
   */
  lemma ReturnBorrowedNonIncreasing(db: Db, loanId: string, ids: seq<int>, d: int)
    requires forall i :: 0 <= i < |db.lines| ==> db.lines[i].quantity >= 0
    ensures var r := Return(db, loanId, ids);
      Borrowed(r.loans, r.lines, d) <= Borrowed(db.loans, db.lines, d)
  {
    ReturnLinesSpec(db, loanId, ids);
    var m := ReturnLines(db, loanId, ids);
    KeptBorrowed(db.loans, db.lines, loanId, ids, d);
    if CountLines(m.lines, loanId) == 0 {
      CountLinesZero(m.lines, loanId);
      JoinedClosed(m.loans, m.lines, loanId, d);
    }
  }

  /** A return keeps every device within its stock when it was before. */
  lemma ReturnWithinStock(db: Db, loanId: string, ids: seq<int>)
    requires forall i :: 0 <= i < |db.lines| ==> db.lines[i].quantity >= 0
    requires WithinStock(db)
    ensures WithinStock(Return(db, loanId, ids))
  {
    var r := Return(db, loanId, ids);
    ReturnSpec(db, loanId, ids);
    forall i | 0 <= i < |r.devices| ensures Borrowed(r.loans, r.lines, r.devices[i].id) <= r.devices[i].quantity {
      assert r.devices[i].(status := "") == db.devices[i].(status := "");
      ReturnBorrowedNonIncreasing(db, loanId, ids, db.devices[i].id);
    }
  }

  /** A line survives exactly when it is not a listed device on this loan. */
  lemma {:induction false} KeptMembers(lines: seq<Line>, loanId: string, ids: seq<int>, l: Line)
    ensures l in Kept(lines, loanId, ids) <==> l in lines && !(l.loanId == loanId && l.deviceId in ids)
  {
    if lines != [] {
      var init := lines[..|lines| - 1];
      KeptMembers(init, loanId, ids, l);
      assert lines == init + [lines[|lines| - 1]];
    }
  }

  lemma {:induction false} KeptIdempotent(lines: seq<Line>, loanId: string, ids: seq<int>)
    ensures Kept(Kept(lines, loanId, ids), loanId, ids) == Kept(lines, loanId, ids)
  {
    var k := Kept(lines, loanId, ids);
    KeptAll(k, loanId, ids);
  }

  /** Returning what is already returned, with current statuses, changes nothing. */
  lemma {:induction false} ReturnLinesNoop(db: Db, loanId: string, ids: seq<int>)
    requires forall i :: 0 <= i < |db.lines| ==> !(db.lines[i].loanId == loanId && db.lines[i].deviceId in ids)
    requires forall d :: d in ids ==> StatusCurrent(db, d)
    ensures ReturnLines(db, loanId, ids) == db
  {
    if ids != [] {
      var init := ids[..|ids| - 1];
      var d := ids[|ids| - 1];
      ReturnLinesNoop(db, loanId, init);
      KeptNone(db.lines, loanId);
      DropKept(db.lines, loanId, [], d);
      assert [] + [d] == [d];
      KeptAll(db.lines, loanId, [d]);
      assert db.(lines := DropLines(db.lines, loanId, d)) == db;
      UpdateCurrent(db, d);
    }
  }

  lemma {:induction false} KeptAll(lines: seq<Line>, loanId: string, ids: seq<int>)
    requires forall i :: 0 <= i < |lines| ==> !(lines[i].loanId == loanId && lines[i].deviceId in ids)
    ensures Kept(lines, loanId, ids) == lines
  {
    if lines != [] {
      KeptAll(lines[..|lines| - 1], loanId, ids);
    }
  }

  lemma CloseLoanIdempotent(loans: seq<Loan>, loanId: string)
    ensures CloseLoan(CloseLoan(loans, loanId), loanId) == CloseLoan(loans, loanId)
  {
  }

  /** Submitting the same return twice has the effect of submitting it once. */
  lemma ReturnIdempotent(db: Db, loanId: string, ids: seq<int>)
    ensures Return(Return(db, loanId, ids), loanId, ids) == Return(db, loanId, ids)
  {
    var r := Return(db, loanId, ids);
    ReturnSpec(db, loanId, ids);
    ReturnLinesNoop(r, loanId, ids);
    var m := ReturnLines(db, loanId, ids);
    if CountLines(m.lines, loanId) == 0 {
      CloseLoanIdempotent(m.loans, loanId);
    }
  }
}
