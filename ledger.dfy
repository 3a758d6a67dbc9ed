/**
 * The tables of the lending ledger of main.py and the status a device shows,
 * derived from the loan lines of active loans (`update_device_status`).
 */
module Ledger {
  import opened Wrappers
  import opened Text
  import opened Grouping

  const StatusAvailable: string := "verfügbar"
  const StatusDefective: string := "defekt"
  const LoanActive: string := "ausgeliehen"
  const LoanReturned: string := "zurückgegeben"

  /** A row of `geraete`, with the columns the ledger reads or writes. */
  datatype Device = Device(id: int, name: string, barcode: string, quantity: int, status: string, description: string)

  /** A row of `ausleihen`; `loanId` is `ausleih_id`, which the schema does not make unique. */
  datatype Loan = Loan(loanId: string, borrowerId: string, borrowerName: string, destination: string,
                       date: string, returnCode: string, email: Option<string>, klasse: Option<string>,
                       status: string)

  /** A row of `ausleih_details`: `quantity` units of one device on one loan. */
  datatype Line = Line(loanId: string, deviceId: int, barcode: string, quantity: int)

  /** The three tables, each in row order. */
  datatype Db = Db(devices: seq<Device>, loans: seq<Loan>, lines: seq<Line>)

  /** Device ids are the primary key and barcodes are `UNIQUE`. */
  predicate KeysUnique(devices: seq<Device>) {
    forall i, j :: 0 <= i < j < |devices| ==> devices[i].id != devices[j].id && devices[i].barcode != devices[j].barcode
  }

  /** Some loan row with the line's id is still active: the line counts for its device. */
  predicate IsActiveLine(loans: seq<Loan>, l: Line) {
    exists j :: 0 <= j < |loans| && loans[j].loanId == l.loanId && loans[j].status == LoanActive
  }

  /**
   * The rows `ausleih_details JOIN ausleihen ... WHERE a.status = 'ausgeliehen'`
   * yields for one line: one per active loan row sharing its id, tagged with
   * that loan's borrower name and weighted with the line's quantity.
   */
  function Matches(loans: seq<Loan>, l: Line): (r: seq<Tagged<Line>>)
    ensures forall i :: 0 <= i < |r| ==> r[i].item == l && r[i].weight == l.quantity
  {
    if loans == [] then []
    else
      var last := loans[|loans| - 1];
      Matches(loans[..|loans| - 1], l)
        + (if last.loanId == l.loanId && last.status == LoanActive then [Tagged(last.borrowerName, l, l.quantity)] else [])
  }

  /** The joined rows for device `d`, in line order. */
  function Joined(loans: seq<Loan>, lines: seq<Line>, d: int): seq<Tagged<Line>> {
    if lines == [] then []
    else
      var last := lines[|lines| - 1];
      Joined(loans, lines[..|lines| - 1], d) + (if last.deviceId == d then Matches(loans, last) else [])
  }

  /** Units of device `d` out on active loans: `SUM(ad.quantity)`, 0 for no rows. */
  function Borrowed(loans: seq<Loan>, lines: seq<Line>, d: int): int {
    TotalWeight(Joined(loans, lines, d))
  }

  /** `GROUP BY a.mitarbeiter_name ORDER BY a.mitarbeiter_name` over the joined rows. */
  function BorrowerSummary(loans: seq<Loan>, lines: seq<Line>, d: int): seq<Group<Line>> {
    GroupAll(Joined(loans, lines, d))
  }

  /** One borrower's part of the status, `"<name> (<qty>)"`. */
  function BorrowerEntry(g: Group<Line>): (s: string)
    ensures s != [] && s[|s| - 1] == ')'
  {
    g.key + " (" + IntToString(g.count) + ")"
  }

  function BorrowerEntries(gs: seq<Group<Line>>): (r: seq<string>)
    ensures |r| == |gs| && forall i :: 0 <= i < |gs| ==> r[i] == BorrowerEntry(gs[i])
  {
    seq(|gs|, i requires 0 <= i < |gs| => BorrowerEntry(gs[i]))
  }

  /** `verfügbar` for no borrower, otherwise the borrower entries joined with `", "`. */
  function RenderStatus(gs: seq<Group<Line>>): (s: string)
    ensures gs != [] ==> s != [] && s[|s| - 1] == ')'
  {
    if gs == [] then StatusAvailable
    else
      JoinEndsWithLast(BorrowerEntries(gs), ", ");
      Join(BorrowerEntries(gs), ", ")
  }

  /** The status `update_device_status` computes for device `d`. */
  function DerivedStatus(loans: seq<Loan>, lines: seq<Line>, d: int): string {
    RenderStatus(BorrowerSummary(loans, lines, d))
  }

  lemma {:induction false} MatchesEmpty(loans: seq<Loan>, l: Line)
    ensures Matches(loans, l) == [] <==> !IsActiveLine(loans, l)
  {
    if loans != [] {
      var init := loans[..|loans| - 1];
      MatchesEmpty(init, l);
      if IsActiveLine(init, l) {
        var j :| 0 <= j < |init| && init[j].loanId == l.loanId && init[j].status == LoanActive;
        assert loans[j] == init[j];
      }
      assert forall j :: 0 <= j < |init| ==> init[j] == loans[j];
    }
  }

  /** No joined rows exactly when no line of `d` belongs to an active loan. */
  lemma {:induction false} JoinedEmpty(loans: seq<Loan>, lines: seq<Line>, d: int)
    ensures Joined(loans, lines, d) == [] <==>
      forall i :: 0 <= i < |lines| && lines[i].deviceId == d ==> !IsActiveLine(loans, lines[i])
  {
    if lines != [] {
      var init := lines[..|lines| - 1];
      var last := lines[|lines| - 1];
      JoinedEmpty(loans, init, d);
      MatchesEmpty(loans, last);
      assert forall i :: 0 <= i < |init| ==> init[i] == lines[i];
    }
  }

  lemma GroupAllEmpty<T>(es: seq<Tagged<T>>)
    ensures GroupAll(es) == [] <==> es == []
  {
    GroupAllKeys(es);
    if es != [] {
      assert es[0].key in TagKeys(es);
    }
  }

  /**
   * A device shows `verfügbar` exactly when none of its lines belongs to an
   * active loan; lines of returned loans never count.
   */
  lemma DerivedStatusAvailable(loans: seq<Loan>, lines: seq<Line>, d: int)
    ensures DerivedStatus(loans, lines, d) == StatusAvailable <==>
      forall i :: 0 <= i < |lines| && lines[i].deviceId == d ==> !IsActiveLine(loans, lines[i])
  {
    JoinedEmpty(loans, lines, d);
    GroupAllEmpty(Joined(loans, lines, d));
    assert StatusAvailable[|StatusAvailable| - 1] == 'r';
  }

  /** The number of active loan rows with loan id `id` and borrower `name`. */
  function LoanCount(loans: seq<Loan>, id: string, name: string): nat {
    if loans == [] then 0
    else
      var last := loans[|loans| - 1];
      LoanCount(loans[..|loans| - 1], id, name) + (if last.loanId == id && last.status == LoanActive && last.borrowerName == name then 1 else 0)
  }

  /**
   * Reference definition of what a borrower has of device `d`: every line of `d`
   * counts its quantity once per active loan row of that borrower with the
   * line's id (one, when loan ids are unique).
   */
  function QuantityOf(loans: seq<Loan>, lines: seq<Line>, d: int, name: string): int {
    if lines == [] then 0
    else
      var last := lines[|lines| - 1];
      QuantityOf(loans, lines[..|lines| - 1], d, name) + (if last.deviceId == d then last.quantity * LoanCount(loans, last.loanId, name) else 0)
  }

  lemma WeightOfAppend<T>(a: seq<Tagged<T>>, b: seq<Tagged<T>>, k: string)
    ensures WeightOf(a + b, k) == WeightOf(a, k) + WeightOf(b, k)
    ensures TotalWeight(a + b) == TotalWeight(a) + TotalWeight(b)
    ensures TagKeys(a + b) == TagKeys(a) + TagKeys(b)
  {
    WeightOfKeyAppend(a, b, k);
    TotalWeightAppend(a, b);
    TagKeysAppend(a, b);
  }

  lemma {:induction false} WeightOfKeyAppend<T>(a: seq<Tagged<T>>, b: seq<Tagged<T>>, k: string)
    ensures WeightOf(a + b, k) == WeightOf(a, k) + WeightOf(b, k)
    decreases |b|
  {
    if b == [] {
      assert a + b == a;
    } else {
      var b' := b[..|b| - 1];
      assert (a + b)[..|a + b| - 1] == a + b';
      assert (a + b)[|a + b| - 1] == b[|b| - 1];
      WeightOfKeyAppend(a, b', k);
    }
  }

  lemma {:induction false} TotalWeightAppend<T>(a: seq<Tagged<T>>, b: seq<Tagged<T>>)
    ensures TotalWeight(a + b) == TotalWeight(a) + TotalWeight(b)
    decreases |b|
  {
    if b == [] {
      assert a + b == a;
    } else {
      var b' := b[..|b| - 1];
      assert (a + b)[..|a + b| - 1] == a + b';
      assert (a + b)[|a + b| - 1] == b[|b| - 1];
      TotalWeightAppend(a, b');
    }
  }

  lemma TagKeysAppend<T>(a: seq<Tagged<T>>, b: seq<Tagged<T>>)
    ensures TagKeys(a + b) == TagKeys(a) + TagKeys(b)
  {
    var c := a + b;
    forall x | x in TagKeys(c) ensures x in TagKeys(a) + TagKeys(b) {
      var i :| 0 <= i < |c| && c[i].key == x;
      if i < |a| {
        assert c[i] == a[i];
      } else {
        assert c[i] == b[i - |a|];
      }
    }
    forall x | x in TagKeys(a) + TagKeys(b) ensures x in TagKeys(c) {
      if x in TagKeys(a) {
        var i :| 0 <= i < |a| && a[i].key == x;
        assert c[i] == a[i];
      } else {
        var i :| 0 <= i < |b| && b[i].key == x;
        assert c[|a| + i] == b[i];
      }
    }
  }

  lemma {:induction false} MatchesWeight(loans: seq<Loan>, l: Line, name: string)
    ensures WeightOf(Matches(loans, l), name) == l.quantity * LoanCount(loans, l.loanId, name)
  {
    if loans == [] {
      assert Matches(loans, l) == [];
    } else {
      var init := loans[..|loans| - 1];
      var last := loans[|loans| - 1];
      MatchesWeight(init, l, name);
      var tail: seq<Tagged<Line>> := if last.loanId == l.loanId && last.status == LoanActive then [Tagged(last.borrowerName, l, l.quantity)] else [];
      assert Matches(loans, l) == Matches(init, l) + tail;
      WeightOfKeyAppend(Matches(init, l), tail, name);
      var hit := last.loanId == l.loanId && last.status == LoanActive && last.borrowerName == name;
      TailWeight(tail, l, name, hit);
      assert LoanCount(loans, l.loanId, name) == LoanCount(init, l.loanId, name) + (if hit then 1 else 0);
      MulStep(l.quantity, LoanCount(init, l.loanId, name), hit);
    }
  }

  lemma TailWeight(tail: seq<Tagged<Line>>, l: Line, name: string, hit: bool)
    requires |tail| <= 1 && forall i :: 0 <= i < |tail| ==> tail[i].weight == l.quantity
    requires hit <==> |tail| == 1 && tail[0].key == name
    ensures WeightOf(tail, name) == if hit then l.quantity else 0
  {
    if tail != [] {
      assert tail[..0] == [];
    }
  }

  lemma MulStep(q: int, c: int, hit: bool)
    ensures q * (c + (if hit then 1 else 0)) == q * c + (if hit then q else 0)
  {
  }

  /** The grouped quantity per borrower is the reference quantity. */
  lemma {:induction false} JoinedWeight(loans: seq<Loan>, lines: seq<Line>, d: int, name: string)
    ensures WeightOf(Joined(loans, lines, d), name) == QuantityOf(loans, lines, d, name)
  {
    if lines != [] {
      var init := lines[..|lines| - 1];
      var last := lines[|lines| - 1];
      JoinedWeight(loans, init, d, name);
      var tail := if last.deviceId == d then Matches(loans, last) else [];
      WeightOfAppend(Joined(loans, init, d), tail, name);
      if last.deviceId == d {
        MatchesWeight(loans, last, name);
      }
    }
  }

  /** The borrower names that own a joined row of `d`. */
  function ActiveBorrowers(loans: seq<Loan>, lines: seq<Line>, d: int): set<string> {
    set i, j | 0 <= i < |lines| && 0 <= j < |loans| && lines[i].deviceId == d
      && loans[j].loanId == lines[i].loanId && loans[j].status == LoanActive :: loans[j].borrowerName
  }

  /** The borrower names of the active loan rows with the line's id, one loan row more at a time. */
  lemma ActiveNamesSnoc(loans: seq<Loan>, l: Line)
    requires loans != []
    ensures var init := loans[..|loans| - 1];
      var last := loans[|loans| - 1];
      (set j | 0 <= j < |loans| && loans[j].loanId == l.loanId && loans[j].status == LoanActive :: loans[j].borrowerName)
      == (set j | 0 <= j < |init| && init[j].loanId == l.loanId && init[j].status == LoanActive :: init[j].borrowerName)
         + (if last.loanId == l.loanId && last.status == LoanActive then {last.borrowerName} else {})
  {
    var init := loans[..|loans| - 1];
    assert forall j :: 0 <= j < |init| ==> init[j] == loans[j];
  }

  lemma {:induction false} MatchesKeys(loans: seq<Loan>, l: Line)
    ensures TagKeys(Matches(loans, l)) ==
      set j | 0 <= j < |loans| && loans[j].loanId == l.loanId && loans[j].status == LoanActive :: loans[j].borrowerName
  {
    if loans != [] {
      var init := loans[..|loans| - 1];
      var last := loans[|loans| - 1];
      MatchesKeys(init, l);
      var tail: seq<Tagged<Line>> := if last.loanId == l.loanId && last.status == LoanActive then [Tagged(last.borrowerName, l, l.quantity)] else [];
      assert Matches(loans, l) == Matches(init, l) + tail;
      WeightOfAppend(Matches(init, l), tail, "");
      assert TagKeys(tail) == if tail == [] then {} else {last.borrowerName} by {
        if tail != [] {
          assert tail[0].key == last.borrowerName;
        }
      }
      ActiveNamesSnoc(loans, l);
    }
  }

  lemma {:induction false} JoinedKeys(loans: seq<Loan>, lines: seq<Line>, d: int)
    ensures TagKeys(Joined(loans, lines, d)) == ActiveBorrowers(loans, lines, d)
  {
    if lines != [] {
      var init := lines[..|lines| - 1];
      var last := lines[|lines| - 1];
      JoinedKeys(loans, init, d);
      var tail := if last.deviceId == d then Matches(loans, last) else [];
      WeightOfAppend(Joined(loans, init, d), tail, "");
      MatchesKeys(loans, last);
      assert forall i :: 0 <= i < |init| ==> init[i] == lines[i];
      var left := ActiveBorrowers(loans, init, d);
      var right := set j | 0 <= j < |loans| && loans[j].loanId == last.loanId && loans[j].status == LoanActive :: loans[j].borrowerName;
      assert ActiveBorrowers(loans, lines, d) == left + (if last.deviceId == d then right else {}) by {
        forall n | n in ActiveBorrowers(loans, lines, d) ensures n in left + (if last.deviceId == d then right else {}) {
          var i, j :| 0 <= i < |lines| && 0 <= j < |loans| && lines[i].deviceId == d
            && loans[j].loanId == lines[i].loanId && loans[j].status == LoanActive && loans[j].borrowerName == n;
          if i < |init| {
            assert n in left;
          }
        }
      }
    }
  }

  /**
   * What the status summary holds: one group per distinct borrower with an
   * active line of `d`, sorted by name, each counting that borrower's units, and
   * together all units of `d` out.
   */
  lemma SummarySpec(loans: seq<Loan>, lines: seq<Line>, d: int)
    ensures var gs := BorrowerSummary(loans, lines, d);
      Sorted(gs)
      && Keys(gs) == ActiveBorrowers(loans, lines, d)
      && (forall i :: 0 <= i < |gs| ==> gs[i].count == QuantityOf(loans, lines, d, gs[i].key))
      && Total(gs) == Borrowed(loans, lines, d)
  {
    var es := Joined(loans, lines, d);
    var gs := GroupAll(es);
    GroupAllKeys(es);
    JoinedKeys(loans, lines, d);
    GroupAllTotal(es);
    forall i | 0 <= i < |gs| ensures gs[i].count == QuantityOf(loans, lines, d, gs[i].key) {
      SortedLookup(gs, i);
      GroupAllLookup(es, gs[i].key);
      assert gs[i].key in Keys(gs);
      JoinedWeight(loans, lines, d, gs[i].key);
    }
  }

  /** Otherwise the status is the summary rendered: `"A (2), B (1)"`. */
  lemma DerivedStatusBorrowed(loans: seq<Loan>, lines: seq<Line>, d: int)
    requires exists i :: 0 <= i < |lines| && lines[i].deviceId == d && IsActiveLine(loans, lines[i])
    ensures var gs := BorrowerSummary(loans, lines, d);
      gs != [] && DerivedStatus(loans, lines, d) == Join(BorrowerEntries(gs), ", ")
  {
    JoinedEmpty(loans, lines, d);
    GroupAllEmpty(Joined(loans, lines, d));
  }

  /** Only active loans matter: dropping returned loans does not change the status. */
  function ActiveLoans(loans: seq<Loan>): (r: seq<Loan>)
    ensures forall j :: 0 <= j < |r| ==> r[j].status == LoanActive
  {
    if loans == [] then []
    else
      var last := loans[|loans| - 1];
      ActiveLoans(loans[..|loans| - 1]) + (if last.status == LoanActive then [last] else [])
  }

  lemma {:induction false} MatchesActive(loans: seq<Loan>, l: Line)
    ensures Matches(ActiveLoans(loans), l) == Matches(loans, l)
  {
    if loans != [] {
      var init := loans[..|loans| - 1];
      var last := loans[|loans| - 1];
      MatchesActive(init, l);
      var a := ActiveLoans(loans);
      if last.status == LoanActive {
        assert a == ActiveLoans(init) + [last];
        assert a[..|a| - 1] == ActiveLoans(init);
        assert a[|a| - 1] == last;
      } else {
        assert a == ActiveLoans(init);
      }
    }
  }

  lemma {:induction false} JoinedActive(loans: seq<Loan>, lines: seq<Line>, d: int)
    ensures Joined(ActiveLoans(loans), lines, d) == Joined(loans, lines, d)
  {
    if lines != [] {
      JoinedActive(loans, lines[..|lines| - 1], d);
      MatchesActive(loans, lines[|lines| - 1]);
    }
  }

  /** Returned loans are ignored by the status. */
  lemma ReturnedLoansIgnored(loans: seq<Loan>, lines: seq<Line>, d: int)
    ensures DerivedStatus(ActiveLoans(loans), lines, d) == DerivedStatus(loans, lines, d)
    ensures Borrowed(ActiveLoans(loans), lines, d) == Borrowed(loans, lines, d)
  {
    JoinedActive(loans, lines, d);
  }

  /** Lines of other devices do not affect a device's status. */
  lemma {:induction false} JoinedOtherLine(loans: seq<Loan>, lines: seq<Line>, l: Line, d: int)
    requires l.deviceId != d
    ensures Joined(loans, lines + [l], d) == Joined(loans, lines, d)
  {
    assert (lines + [l])[..|lines|] == lines;
  }

  /** The join works line by line, so it distributes over appending lines. */
  lemma {:induction false} JoinedAppend(loans: seq<Loan>, a: seq<Line>, b: seq<Line>, d: int)
    ensures Joined(loans, a + b, d) == Joined(loans, a, d) + Joined(loans, b, d)
    decreases |b|
  {
    if b == [] {
      assert a + b == a;
    } else {
      var b' := b[..|b| - 1];
      var x := b[|b| - 1];
      JoinedAppend(loans, a, b', d);
      assert (a + b)[..|a + b| - 1] == a + b';
      assert (a + b)[|a + b| - 1] == x;
      var t := if x.deviceId == d then Matches(loans, x) else [];
      assert Joined(loans, a + b, d) == Joined(loans, a + b', d) + t;
      assert Joined(loans, b, d) == Joined(loans, b', d) + t;
    }
  }

  /** A new loan row whose id no line carries yet leaves every device's status as it was. */
  lemma {:induction false} JoinedNewLoan(loans: seq<Loan>, lines: seq<Line>, nl: Loan, d: int)
    requires forall i :: 0 <= i < |lines| ==> lines[i].loanId != nl.loanId
    ensures Joined(loans + [nl], lines, d) == Joined(loans, lines, d)
  {
    if lines != [] {
      var init := lines[..|lines| - 1];
      JoinedNewLoan(loans, init, nl, d);
      assert (loans + [nl])[..|loans|] == loans;
    }
  }

  /**
   * The first device with id `d`; device ids are unique in a well-formed table,
   * so this is the one `SELECT ... WHERE id = ?` returns.
   */
  function FindById(devices: seq<Device>, d: int): (r: Option<Device>)
    ensures r.Some? ==> r.value in devices && r.value.id == d
    ensures r.None? <==> forall i :: 0 <= i < |devices| ==> devices[i].id != d
  {
    if devices == [] then None
    else if devices[0].id == d then Some(devices[0])
    else FindById(devices[1..], d)
  }

  /** The status column after `UPDATE geraete SET status = ? WHERE id = ?`. */
  function SetStatus(devices: seq<Device>, d: int, s: string): (r: seq<Device>)
    ensures |r| == |devices|
    ensures forall i :: 0 <= i < |devices| ==> r[i] == if devices[i].id == d then devices[i].(status := s) else devices[i]
  {
    seq(|devices|, i requires 0 <= i < |devices| => if devices[i].id == d then devices[i].(status := s) else devices[i])
  }

  /** `update_device_status`: nothing for an unknown id, otherwise the derived status. */
  function UpdateDeviceStatus(db: Db, d: int): (r: Db)
    ensures r.loans == db.loans && r.lines == db.lines && |r.devices| == |db.devices|
    ensures forall i :: 0 <= i < |db.devices| ==>
      r.devices[i] == if db.devices[i].id == d then db.devices[i].(status := DerivedStatus(db.loans, db.lines, d)) else db.devices[i]
  {
    if FindById(db.devices, d).None? then db
    else db.(devices := SetStatus(db.devices, d, DerivedStatus(db.loans, db.lines, d)))
  }

  /** Everything but the status column, which is what `update_device_status` leaves alone. */
  predicate SameButStatus(a: seq<Device>, b: seq<Device>) {
    |a| == |b| && forall i :: 0 <= i < |a| ==> a[i].(status := "") == b[i].(status := "")
  }

  /** Changing statuses keeps the keys unique. */
  lemma SameButStatusKeys(a: seq<Device>, b: seq<Device>)
    requires KeysUnique(a) && SameButStatus(a, b)
    ensures KeysUnique(b)
  {
    forall i, j | 0 <= i < j < |b| ensures b[i].id != b[j].id && b[i].barcode != b[j].barcode {
      assert a[i].(status := "") == b[i].(status := "");
      assert a[j].(status := "") == b[j].(status := "");
    }
  }

  /** `update_device_status` changes status columns only, and only those of its device. */
  lemma StatusOnly(db: Db, d: int)
    ensures var r := UpdateDeviceStatus(db, d);
      && SameButStatus(db.devices, r.devices)
      && forall i :: 0 <= i < |db.devices| && db.devices[i].id != d ==> r.devices[i] == db.devices[i]
  {
  }

  lemma SameButStatusTrans(a: seq<Device>, b: seq<Device>, c: seq<Device>)
    requires SameButStatus(a, b) && SameButStatus(b, c)
    ensures SameButStatus(a, c)
  {
  }

  /** The status shown for every device with id `d` matches the loan tables. */
  predicate StatusCurrent(db: Db, d: int) {
    forall i :: 0 <= i < |db.devices| && db.devices[i].id == d ==> db.devices[i].status == DerivedStatus(db.loans, db.lines, d)
  }

  /** After `update_device_status` the device's own status is current. */
  lemma UpdateMakesCurrent(db: Db, d: int)
    ensures StatusCurrent(UpdateDeviceStatus(db, d), d)
  {
  }

  /** `update_device_status` for one device keeps another device's current status current. */
  lemma UpdateKeepsCurrent(db: Db, d: int, x: int)
    requires x != d && StatusCurrent(db, x)
    ensures StatusCurrent(UpdateDeviceStatus(db, d), x)
  {
    var r := UpdateDeviceStatus(db, d);
    assert r.loans == db.loans && r.lines == db.lines;
    forall i | 0 <= i < |r.devices| && r.devices[i].id == x
      ensures r.devices[i].status == DerivedStatus(r.loans, r.lines, x)
    {
      assert r.devices[i] == db.devices[i];
    }
  }

  /** The same device rows over lines that join the same way for `x` keep `x` current. */
  lemma SameJoinKeepsCurrent(db: Db, lines: seq<Line>, x: int)
    requires StatusCurrent(db, x) && Joined(db.loans, lines, x) == Joined(db.loans, db.lines, x)
    ensures StatusCurrent(db.(lines := lines), x)
  {
  }

  /** Recomputing a status that is already current changes nothing. */
  lemma UpdateCurrent(db: Db, d: int)
    requires StatusCurrent(db, d)
    ensures UpdateDeviceStatus(db, d) == db
  {
    var r := UpdateDeviceStatus(db, d);
    assert r.devices == db.devices;
  }
}
