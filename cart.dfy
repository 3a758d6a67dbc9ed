/**
 * The borrow cart of main.py (`session['borrow_list']`): adding devices by
 * barcode, one scanned line at a time, within the units still available, and
 * removing a device again (`remove_from_borrow`).
 */
module BorrowCart {
  import opened Wrappers
  import opened Text
  import opened Ledger

  /** One cart entry: the device, how many units are picked and the availability when first added. */
  datatype CartEntry = CartEntry(id: int, name: string, barcode: string, quantity: int, maxQuantity: int)

  /** The three messages a rejected line produces. */
  datatype AddError =
    | NotFound(barcode: string)               // no device has this barcode
    | Exhausted(name: string, stock: int)     // every unit is on an active loan
    | CapReached(name: string, available: int) // the cart already holds every available unit

  /** The first device with barcode `b`, as `SELECT ... WHERE barcode = ?` with `fetchone`. */
  function FindByBarcode(devices: seq<Device>, b: string): (r: Option<Device>)
    ensures r.Some? ==> r.value in devices && r.value.barcode == b
    ensures r.None? <==> forall i :: 0 <= i < |devices| ==> devices[i].barcode != b
  {
    if devices == [] then None
    else if devices[0].barcode == b then Some(devices[0])
    else FindByBarcode(devices[1..], b)
  }

  /** Stock minus the units on active loans. */
  function Available(db: Db, dev: Device): int {
    dev.quantity - Borrowed(db.loans, db.lines, dev.id)
  }

  /** The position of the first cart entry for device `id`. */
  function CartIndex(cart: seq<CartEntry>, id: int): (r: Option<nat>)
    ensures r.Some? ==> r.value < |cart| && cart[r.value].id == id
    ensures r.None? <==> forall i :: 0 <= i < |cart| ==> cart[i].id != id
  {
    if cart == [] then None
    else if cart[0].id == id then Some(0)
    else match CartIndex(cart[1..], id)
      case None => None
      case Some(k) => Some(k + 1)
  }

  /** Units of device `id` in the cart. */
  function CartQty(cart: seq<CartEntry>, id: int): int {
    if cart == [] then 0
    else CartQty(cart[..|cart| - 1], id) + (if cart[|cart| - 1].id == id then cart[|cart| - 1].quantity else 0)
  }

  function TotalQty(cart: seq<CartEntry>): int {
    if cart == [] then 0 else TotalQty(cart[..|cart| - 1]) + cart[|cart| - 1].quantity
  }

  function CartIds(cart: seq<CartEntry>): set<int> {
    set i | 0 <= i < |cart| :: cart[i].id
  }

  lemma CartIdsSnoc(cart: seq<CartEntry>, e: CartEntry)
    ensures CartIds(cart + [e]) == CartIds(cart) + {e.id}
  {
    var c := cart + [e];
    forall x | x in CartIds(c) ensures x in CartIds(cart) + {e.id} {
      var i :| 0 <= i < |c| && c[i].id == x;
      if i < |cart| {
        assert cart[i].id == x;
      }
    }
    forall x | x in CartIds(cart) ensures x in CartIds(c) {
      var i :| 0 <= i < |cart| && cart[i].id == x;
      assert c[i].id == x;
    }
    assert c[|cart|].id == e.id;
  }

  predicate DistinctIds(cart: seq<CartEntry>) {
    forall i, j :: 0 <= i < j < |cart| ==> cart[i].id != cart[j].id
  }

  /**
   * Every entry is a known device and holds at least one and at most as many
   * units as are still available.
   */
  predicate WithinAvailability(db: Db, cart: seq<CartEntry>) {
    forall i :: 0 <= i < |cart| ==>
      FindById(db.devices, cart[i].id).Some? && 1 <= cart[i].quantity <= Available(db, FindById(db.devices, cart[i].id).value)
  }

  /** The cart after one barcode, and the error it produced if it was rejected. */
  datatype Step = Step(cart: seq<CartEntry>, error: Option<AddError>)

  /** One non-blank barcode line of the batch add. */
  function AddBarcode(db: Db, cart: seq<CartEntry>, barcode: string): Step {
    match FindByBarcode(db.devices, barcode)
    case None => Step(cart, Some(NotFound(barcode)))
    case Some(dev) => AddFound(db, cart, dev)
  }

  /** A line whose barcode names `dev`: checked against its availability and the cart. */
  function AddFound(db: Db, cart: seq<CartEntry>, dev: Device): Step {
    var available := Available(db, dev);
    if available <= 0 then Step(cart, Some(Exhausted(dev.name, dev.quantity)))
    else
      match CartIndex(cart, dev.id)
      case Some(k) =>
        if cart[k].quantity >= available then Step(cart, Some(CapReached(dev.name, available)))
        else Step(cart[k := cart[k].(quantity := cart[k].quantity + 1)], None)
      case None => Step(cart + [CartEntry(dev.id, dev.name, dev.barcode, 1, available)], None)
  }

  /** The outcome of a batch: the cart, `added_count` and `error_messages`. */
  datatype Batch = Batch(cart: seq<CartEntry>, added: nat, errors: seq<AddError>)

  /**
   * One more scanned line: it is stripped and a blank one is skipped; any other
   * line either counts as added or appends exactly one error.
   */
  function Next(db: Db, b: Batch, line: string): (r: Batch)
    ensures Strip(line) == [] ==> r == b
    ensures Strip(line) != [] ==>
      (r.added == b.added + 1 && r.errors == b.errors) || (r.added == b.added && |r.errors| == |b.errors| + 1 && r.errors[..|b.errors|] == b.errors)
  {
    var code := Strip(line);
    if code == [] then b
    else
      var st := AddBarcode(db, b.cart, code);
      match st.error
      case None => Batch(st.cart, b.added + 1, b.errors)
      case Some(e) =>
        assert (b.errors + [e])[..|b.errors|] == b.errors;
        Batch(st.cart, b.added, b.errors + [e])
  }

  /** The loop over the scanned lines, each handled on the cart the earlier ones left. */
  function AddAll(db: Db, cart: seq<CartEntry>, lines: seq<string>): Batch {
    if lines == [] then Batch(cart, 0, [])
    else Next(db, AddAll(db, cart, lines[..|lines| - 1]), lines[|lines| - 1])
  }

  /** The batch of the first `i + 1` lines is the batch of the first `i` and one more line. */
  lemma AddAllStep(db: Db, cart: seq<CartEntry>, lines: seq<string>, i: nat)
    requires i < |lines|
    ensures AddAll(db, cart, lines[..i + 1]) == Next(db, AddAll(db, cart, lines[..i]), lines[i])
  {
    assert lines[..i + 1][..i] == lines[..i];
  }

  /** The scanned lines of the barcode field: `strip().split('\n')`. */
  function ScannedLines(input: string): (r: seq<string>)
    ensures |r| >= 1 && Join(r, "\n") == Strip(input)
  {
    JoinSplit(Strip(input), '\n');
    Split(Strip(input), '\n')
  }

  /** The batch add of the borrow form. */
  function AddBarcodes(db: Db, cart: seq<CartEntry>, input: string): Batch {
    AddAll(db, cart, ScannedLines(input))
  }

  /** The number of lines that are not blank once stripped. */
  function CountNonBlank(lines: seq<string>): nat {
    if lines == [] then 0
    else CountNonBlank(lines[..|lines| - 1]) + (if Strip(lines[|lines| - 1]) == [] then 0 else 1)
  }

  lemma {:induction false} CartQtyAbsent(cart: seq<CartEntry>, id: int)
    requires forall i :: 0 <= i < |cart| ==> cart[i].id != id
    ensures CartQty(cart, id) == 0
  {
    if cart != [] {
      CartQtyAbsent(cart[..|cart| - 1], id);
    }
  }

  lemma {:induction false} CartQtyDistinct(cart: seq<CartEntry>, k: nat)
    requires DistinctIds(cart) && k < |cart|
    ensures CartQty(cart, cart[k].id) == cart[k].quantity
  {
    var init := cart[..|cart| - 1];
    if k == |cart| - 1 {
      CartQtyAbsent(init, cart[k].id);
    } else {
      CartQtyDistinct(init, k);
    }
  }

  lemma {:induction false} CartQtyAppend(cart: seq<CartEntry>, e: CartEntry, id: int)
    ensures CartQty(cart + [e], id) == CartQty(cart, id) + (if e.id == id then e.quantity else 0)
    ensures TotalQty(cart + [e]) == TotalQty(cart) + e.quantity
  {
    assert (cart + [e])[..|cart|] == cart;
  }

  lemma {:induction false} CartQtyUpdate(cart: seq<CartEntry>, k: nat, e: CartEntry, id: int)
    requires k < |cart| && e.id == cart[k].id
    ensures CartQty(cart[k := e], id) == CartQty(cart, id) + (if e.id == id then e.quantity - cart[k].quantity else 0)
    ensures TotalQty(cart[k := e]) == TotalQty(cart) + e.quantity - cart[k].quantity
  {
    var init := cart[..|cart| - 1];
    if k == |cart| - 1 {
      assert cart[k := e][..|cart| - 1] == init;
    } else {
      CartQtyUpdate(init, k, e, id);
      assert cart[k := e][..|cart| - 1] == init[k := e];
    }
  }

  lemma FindByIdUnique(devices: seq<Device>, i: nat)
    requires KeysUnique(devices) && i < |devices|
    ensures FindById(devices, devices[i].id) == Some(devices[i])
  {
    if i > 0 {
      assert KeysUnique(devices[1..]) by {
        forall a, b | 0 <= a < b < |devices[1..]|
          ensures devices[1..][a].id != devices[1..][b].id && devices[1..][a].barcode != devices[1..][b].barcode {
          assert devices[1..][a] == devices[a + 1] && devices[1..][b] == devices[b + 1];
        }
      }
      FindByIdUnique(devices[1..], i - 1);
    }
  }

  /**
   * One line: a rejected line leaves the cart unchanged, and a line is rejected
   * exactly for an unknown barcode, an exhausted device or a cart already at its
   * availability; an accepted line adds exactly one unit of that device.
   */
  lemma AddBarcodeSpec(db: Db, cart: seq<CartEntry>, barcode: string)
    requires DistinctIds(cart)
    ensures var st := AddBarcode(db, cart, barcode);
      && (st.error.Some? ==> st.cart == cart)
      && (st.error == Some(NotFound(barcode)) <==> FindByBarcode(db.devices, barcode).None?)
      && (FindByBarcode(db.devices, barcode).Some? ==>
            var dev := FindByBarcode(db.devices, barcode).value;
            (st.error.Some? && st.error.value.Exhausted? <==> Available(db, dev) <= 0)
            && (st.error.Some? && st.error.value.CapReached? <==> 0 < Available(db, dev) <= CartQty(cart, dev.id))
            && (st.error.None? ==>
                  CartIds(st.cart) == CartIds(cart) + {dev.id}
                  && TotalQty(st.cart) == TotalQty(cart) + 1
                  && forall id :: CartQty(st.cart, id) == CartQty(cart, id) + (if id == dev.id then 1 else 0)))
  {
    match FindByBarcode(db.devices, barcode)
    case None =>
    case Some(dev) =>
      AddFoundSpec(db, cart, dev);
  }

  lemma AddFoundSpec(db: Db, cart: seq<CartEntry>, dev: Device)
    requires DistinctIds(cart)
    ensures var st := AddFound(db, cart, dev);
      && (st.error.Some? ==> st.cart == cart)
      && (st.error.Some? && st.error.value.Exhausted? <==> Available(db, dev) <= 0)
      && (st.error.Some? && st.error.value.CapReached? <==> 0 < Available(db, dev) <= CartQty(cart, dev.id))
      && (st.error.Some? ==> !st.error.value.NotFound?)
      && (st.error.None? ==>
            CartIds(st.cart) == CartIds(cart) + {dev.id}
            && TotalQty(st.cart) == TotalQty(cart) + 1
            && forall id :: CartQty(st.cart, id) == CartQty(cart, id) + (if id == dev.id then 1 else 0))
  {
    AddFoundRejects(db, cart, dev, Available(db, dev));
    AddFoundGrows(db, cart, dev, Available(db, dev));
  }

  /** The rejections of a known barcode, with `available` already computed. */
  lemma AddFoundRejects(db: Db, cart: seq<CartEntry>, dev: Device, available: int)
    requires DistinctIds(cart) && available == Available(db, dev)
    ensures var st := AddFound(db, cart, dev);
      && (st.error.Some? ==> st.cart == cart)
      && (st.error.Some? && st.error.value.Exhausted? <==> available <= 0)
      && (st.error.Some? && st.error.value.CapReached? <==> 0 < available <= CartQty(cart, dev.id))
      && (st.error.Some? ==> !st.error.value.NotFound?)
  {
    var st := AddFound(db, cart, dev);
    if available <= 0 {
      assert st == Step(cart, Some(Exhausted(dev.name, dev.quantity)));
    } else {
      match CartIndex(cart, dev.id)
      case Some(k) =>
        CartQtyDistinct(cart, k);
        if cart[k].quantity >= available {
          assert st == Step(cart, Some(CapReached(dev.name, available)));
        } else {
          assert st.error.None?;
        }
      case None =>
        CartQtyAbsent(cart, dev.id);
        assert st.error.None?;
    }
  }

  /** An accepted known barcode adds exactly one unit of its device. */
  lemma AddFoundGrows(db: Db, cart: seq<CartEntry>, dev: Device, available: int)
    requires available == Available(db, dev)
    ensures var st := AddFound(db, cart, dev);
      st.error.None? ==>
        CartIds(st.cart) == CartIds(cart) + {dev.id}
        && TotalQty(st.cart) == TotalQty(cart) + 1
        && forall id :: CartQty(st.cart, id) == CartQty(cart, id) + (if id == dev.id then 1 else 0)
  {
    var st := AddFound(db, cart, dev);
    if available > 0 {
      match CartIndex(cart, dev.id)
      case Some(k) =>
        if cart[k].quantity < available {
          IncrementEntry(cart, k);
          assert st == Step(cart[k := cart[k].(quantity := cart[k].quantity + 1)], None);
        }
      case None =>
        var e := CartEntry(dev.id, dev.name, dev.barcode, 1, available);
        AppendEntry(cart, e);
        assert st == Step(cart + [e], None);
    }
  }

  /** One more unit of entry `k`, in place: the ids stay, and only that device gains a unit. */
  lemma IncrementEntry(cart: seq<CartEntry>, k: nat)
    requires k < |cart|
    ensures var r := cart[k := cart[k].(quantity := cart[k].quantity + 1)];
      && CartIds(r) == CartIds(cart)
      && TotalQty(r) == TotalQty(cart) + 1
      && forall id :: CartQty(r, id) == CartQty(cart, id) + (if id == cart[k].id then 1 else 0)
  {
    var e := cart[k].(quantity := cart[k].quantity + 1);
    var r := cart[k := e];
    forall id ensures CartQty(r, id) == CartQty(cart, id) + (if id == cart[k].id then 1 else 0) {
      CartQtyUpdate(cart, k, e, id);
    }
    CartQtyUpdate(cart, k, e, cart[k].id);
    assert CartIds(r) == CartIds(cart) by {
      forall x | x in CartIds(r) ensures x in CartIds(cart) {
        var i :| 0 <= i < |r| && r[i].id == x;
        assert cart[i].id == x;
      }
      forall x | x in CartIds(cart) ensures x in CartIds(r) {
        var i :| 0 <= i < |cart| && cart[i].id == x;
        assert r[i].id == x;
      }
    }
  }

  /** A new entry of one unit at the end: its id joins, and only that device gains a unit. */
  lemma AppendEntry(cart: seq<CartEntry>, e: CartEntry)
    requires e.quantity == 1
    ensures var r := cart + [e];
      && CartIds(r) == CartIds(cart) + {e.id}
      && TotalQty(r) == TotalQty(cart) + 1
      && forall id :: CartQty(r, id) == CartQty(cart, id) + (if id == e.id then 1 else 0)
  {
    var r := cart + [e];
    forall id ensures CartQty(r, id) == CartQty(cart, id) + (if id == e.id then 1 else 0) {
      CartQtyAppend(cart, e, id);
    }
    CartQtyAppend(cart, e, e.id);
    assert CartIds(r) == CartIds(cart) + {e.id} by {
      forall x | x in CartIds(r) ensures x in CartIds(cart) + {e.id} {
        var i :| 0 <= i < |r| && r[i].id == x;
        if i < |cart| {
          assert cart[i].id == x;
        }
      }
      forall x | x in CartIds(cart) ensures x in CartIds(r) {
        var i :| 0 <= i < |cart| && cart[i].id == x;
        assert r[i].id == x;
      }
      assert r[|cart|].id == e.id;
    }
  }

  /**
   * The entry an accepted line touches: a device new to the cart is appended
   * with one unit and the availability as its ceiling; a device already in it
   * gains one unit in place, and every other entry stays.
   */
  lemma AddBarcodeEntry(db: Db, cart: seq<CartEntry>, barcode: string)
    requires DistinctIds(cart)
    requires FindByBarcode(db.devices, barcode).Some? && AddBarcode(db, cart, barcode).error.None?
    ensures var dev := FindByBarcode(db.devices, barcode).value;
      var r := AddBarcode(db, cart, barcode).cart;
      && (dev.id !in CartIds(cart) ==> r == cart + [CartEntry(dev.id, dev.name, dev.barcode, 1, Available(db, dev))])
      && (dev.id in CartIds(cart) ==>
            |r| == |cart|
            && forall i :: 0 <= i < |cart| ==>
                 r[i] == if cart[i].id == dev.id then cart[i].(quantity := cart[i].quantity + 1) else cart[i])
  {
    var dev := FindByBarcode(db.devices, barcode).value;
    match CartIndex(cart, dev.id)
    case None =>
    case Some(k) =>
      assert cart[k].id in CartIds(cart);
  }

  /** A line keeps the cart's device ids distinct. */
  lemma AddBarcodeDistinct(db: Db, cart: seq<CartEntry>, barcode: string)
    requires DistinctIds(cart)
    ensures DistinctIds(AddBarcode(db, cart, barcode).cart)
  {
  }

  /** A line keeps every entry within the units available, on a table with unique keys. */
  lemma AddBarcodeWithin(db: Db, cart: seq<CartEntry>, barcode: string)
    requires KeysUnique(db.devices) && WithinAvailability(db, cart)
    ensures WithinAvailability(db, AddBarcode(db, cart, barcode).cart)
  {
    match FindByBarcode(db.devices, barcode)
    case None =>
    case Some(dev) =>
      var i :| 0 <= i < |db.devices| && db.devices[i] == dev;
      FindByIdUnique(db.devices, i);
      AddFoundWithin(db, cart, dev);
  }

  lemma AddFoundWithin(db: Db, cart: seq<CartEntry>, dev: Device)
    requires FindById(db.devices, dev.id) == Some(dev) && WithinAvailability(db, cart)
    ensures WithinAvailability(db, AddFound(db, cart, dev).cart)
  {
    var available := Available(db, dev);
    var r := AddFound(db, cart, dev).cart;
    if available > 0 {
      match CartIndex(cart, dev.id)
      case Some(k) =>
        if cart[k].quantity < available {
          forall j | 0 <= j < |r|
            ensures FindById(db.devices, r[j].id).Some? && 1 <= r[j].quantity <= Available(db, FindById(db.devices, r[j].id).value)
          {
            if j != k {
              assert r[j] == cart[j];
            }
          }
        }
      case None =>
        forall j | 0 <= j < |r|
          ensures FindById(db.devices, r[j].id).Some? && 1 <= r[j].quantity <= Available(db, FindById(db.devices, r[j].id).value)
        {
          if j < |cart| {
            assert r[j] == cart[j];
          }
        }
    }
  }

  /**
   * The batch: every non-blank line is either added or reported, the cart gains
   * exactly one unit per added line, and its ids stay distinct.
   */
  lemma {:induction false} AddAllSpec(db: Db, cart: seq<CartEntry>, lines: seq<string>)
    requires DistinctIds(cart)
    ensures var b := AddAll(db, cart, lines);
      && DistinctIds(b.cart)
      && b.added + |b.errors| == CountNonBlank(lines)
      && TotalQty(b.cart) == TotalQty(cart) + b.added
      && CartIds(cart) <= CartIds(b.cart)
  {
    if lines != [] {
      var init := lines[..|lines| - 1];
      AddAllSpec(db, cart, init);
      var b := AddAll(db, cart, init);
      var code := Strip(lines[|lines| - 1]);
      if code != [] {
        AddBarcodeSpec(db, b.cart, code);
        AddBarcodeDistinct(db, b.cart, code);
      }
    }
  }

  /** No batch can put more units of a device in the cart than are available. */
  lemma {:induction false} AddAllWithin(db: Db, cart: seq<CartEntry>, lines: seq<string>)
    requires KeysUnique(db.devices) && WithinAvailability(db, cart)
    ensures WithinAvailability(db, AddAll(db, cart, lines).cart)
  {
    if lines != [] {
      var init := lines[..|lines| - 1];
      AddAllWithin(db, cart, init);
      var code := Strip(lines[|lines| - 1]);
      if code != [] {
        AddBarcodeWithin(db, AddAll(db, cart, init).cart, code);
      }
    }
  }

  /** A batch of unknown barcodes only reports errors. */
  lemma {:induction false} AddAllUnknown(db: Db, cart: seq<CartEntry>, lines: seq<string>)
    requires forall i :: 0 <= i < |lines| ==> FindByBarcode(db.devices, Strip(lines[i])).None?
    ensures AddAll(db, cart, lines) == Batch(cart, 0, AddAll(db, cart, lines).errors)
    ensures forall e :: e in AddAll(db, cart, lines).errors ==> e.NotFound?
  {
    if lines != [] {
      AddAllUnknown(db, cart, lines[..|lines| - 1]);
    }
  }

  /** `remove_from_borrow`: every entry for device `id` goes, the rest keep their order. */
  function RemoveFromBorrow(cart: seq<CartEntry>, id: int): (r: seq<CartEntry>)
    ensures forall i :: 0 <= i < |r| ==> r[i].id != id && r[i] in cart
  {
    if cart == [] then []
    else RemoveFromBorrow(cart[..|cart| - 1], id) + (if cart[|cart| - 1].id == id then [] else [cart[|cart| - 1]])
  }

  /** Removal keeps the ids distinct. */
  lemma {:induction false} RemoveFromBorrowDistinct(cart: seq<CartEntry>, id: int)
    requires DistinctIds(cart)
    ensures DistinctIds(RemoveFromBorrow(cart, id))
  {
    if cart != [] {
      var init := cart[..|cart| - 1];
      var last := cart[|cart| - 1];
      RemoveFromBorrowDistinct(init, id);
      var r := RemoveFromBorrow(init, id);
      forall i | 0 <= i < |r| ensures r[i].id != last.id {
        var j :| 0 <= j < |init| && init[j] == r[i];
        assert cart[j] == init[j];
      }
    }
  }

  /** Removal works entry by entry, left to right: it keeps the order of what stays. */
  lemma {:induction false} RemoveFromBorrowAppend(a: seq<CartEntry>, b: seq<CartEntry>, id: int)
    ensures RemoveFromBorrow(a + b, id) == RemoveFromBorrow(a, id) + RemoveFromBorrow(b, id)
    decreases |b|
  {
    if b == [] {
      assert a + b == a;
    } else {
      var b' := b[..|b| - 1];
      assert (a + b)[..|a + b| - 1] == a + b';
      RemoveFromBorrowAppend(a, b', id);
    }
  }

  lemma RemoveFromBorrowSingle(e: CartEntry, id: int)
    ensures RemoveFromBorrow([e], id) == if e.id == id then [] else [e]
  {
    assert [e][..0] == [];
  }

  /** An entry survives exactly when it is for another device. */
  lemma {:induction false} RemoveFromBorrowMembers(cart: seq<CartEntry>, id: int, e: CartEntry)
    ensures e in RemoveFromBorrow(cart, id) <==> e in cart && e.id != id
  {
    if cart != [] {
      var init := cart[..|cart| - 1];
      RemoveFromBorrowMembers(init, id, e);
      assert cart == init + [cart[|cart| - 1]];
    }
  }

  /** Other devices keep their units; the removed device has none left. */
  lemma {:induction false} RemoveFromBorrowQty(cart: seq<CartEntry>, id: int, other: int)
    ensures CartQty(RemoveFromBorrow(cart, id), other) == if other == id then 0 else CartQty(cart, other)
  {
    if cart != [] {
      var init := cart[..|cart| - 1];
      var last := cart[|cart| - 1];
      RemoveFromBorrowQty(init, id, other);
      assert CartQty(cart, other) == CartQty(init, other) + (if last.id == other then last.quantity else 0);
      if last.id != id {
        CartQtyAppend(RemoveFromBorrow(init, id), last, other);
      } else {
        assert RemoveFromBorrow(cart, id) == RemoveFromBorrow(init, id) + [];
        assert RemoveFromBorrow(init, id) + [] == RemoveFromBorrow(init, id);
      }
    }
  }

  /** Removing an absent device changes nothing, so removing twice is removing once. */
  lemma {:induction false} RemoveFromBorrowAbsent(cart: seq<CartEntry>, id: int)
    requires forall i :: 0 <= i < |cart| ==> cart[i].id != id
    ensures RemoveFromBorrow(cart, id) == cart
  {
    if cart != [] {
      RemoveFromBorrowAbsent(cart[..|cart| - 1], id);
    }
  }

  lemma RemoveFromBorrowIdempotent(cart: seq<CartEntry>, id: int)
    ensures RemoveFromBorrow(RemoveFromBorrow(cart, id), id) == RemoveFromBorrow(cart, id)
  {
    RemoveFromBorrowAbsent(RemoveFromBorrow(cart, id), id);
  }
}
