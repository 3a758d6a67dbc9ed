/**
 * Borrow slips: the base name of a device (its name without a trailing
 * number) and the grouping of a loan's devices by base name, as the slip
 * table shows them (main.py `generate_borrow_pdf` and `borrow_pdf`, app.py
 * `borrow_pdf`). Prices, images and the PDF layout are not modelled.
 */
module BorrowSlip {
  import opened Text
  import opened Grouping

  /**
   * `\s*\d*` matched against the whole of `t`: some whitespace followed by
   * some digits, with nothing after them.
   */
  predicate SpacesThenDigits(t: string) {
    AllDigits(t) || (t != [] && IsSpace(t[0]) && SpacesThenDigits(t[1..]))
  }

  /**
   * `^(.*?)\s*\d*$` can match `s` with group 1 equal to `s[..k]`: `.` does not
   * match a newline, and `$` is the end of `s` (a stripped string has no
   * trailing newline).
   */
  predicate MatchesWithGroup(s: string, k: nat) {
    k <= |s| && '\n' !in s[..k] && SpacesThenDigits(s[k..])
  }

  /** Where group 1 ends: before the trailing digits and the whitespace in front of them. */
  function GroupEnd(s: string): (k: nat)
    ensures k <= |s|
  {
    |TrimRight(TrimDigitsRight(s))|
  }

  /**
   * Python's `get_base_name`: strip the name, cut off a trailing number and the
   * whitespace before it, strip again; fall back to the original name when the
   * pattern does not match or nothing is left.
   */
  function BaseName(name: string): string {
    var s := Strip(name);
    var k := GroupEnd(s);
    if '\n' in s[..k] then name
    else
      var base := Strip(s[..k]);
      if base != [] then base else name
  }

  lemma {:induction false} SpacesThenDigitsNonSpace(t: string, i: nat)
    requires SpacesThenDigits(t) && i < |t| && !IsSpace(t[i])
    ensures AllDigits(t[i..])
  {
    if !AllDigits(t) {
      assert i > 0;
      assert t[1..][i - 1..] == t[i..];
      SpacesThenDigitsNonSpace(t[1..], i - 1);
    }
  }

  lemma {:induction false} SpacesThenDigitsOfParts(w: string, d: string)
    requires AllSpace(w) && AllDigits(d)
    ensures SpacesThenDigits(w + d)
    decreases |w|
  {
    if w != [] {
      assert (w + d)[1..] == w[1..] + d;
      SpacesThenDigitsOfParts(w[1..], d);
    } else {
      assert w + d == d;
    }
  }

  /**
   * The lazy group `(.*?)` takes the shortest prefix that lets the rest match;
   * `GroupEnd` is exactly that shortest split point.
   */
  lemma GroupEndIsLeastMatch(s: string)
    ensures SpacesThenDigits(s[GroupEnd(s)..])
    ensures forall k :: 0 <= k < GroupEnd(s) ==> !SpacesThenDigits(s[k..])
  {
    var t := TrimDigitsRight(s);
    var u := TrimRight(t);
    var k := |u|;
    assert s[k..] == t[k..] + s[|t|..];
    SpacesThenDigitsOfParts(t[k..], s[|t|..]);
    forall j | 0 <= j < k ensures !SpacesThenDigits(s[j..]) {
      if SpacesThenDigits(s[j..]) {
        var last := k - 1 - j;
        assert s[j..][last] == u[k - 1];
        SpacesThenDigitsNonSpace(s[j..], last);
      }
    }
  }

  /** `k` is where the lazy group `(.*?)` ends: the least split point that matches. */
  predicate LeastMatch(s: string, k: nat) {
    MatchesWithGroup(s, k) && forall j :: 0 <= j < k ==> !MatchesWithGroup(s, j)
  }

  /** `get_base_name` read straight off its regular expression. */
  ghost function PatternBaseName(name: string): string {
    var s := Strip(name);
    if exists k: nat :: LeastMatch(s, k) then
      var k: nat :| LeastMatch(s, k);
      var base := Strip(s[..k]);
      if base != [] then base else name
    else
      name
  }

  /** A stripped string's group 1 is already stripped. */
  lemma GroupIsTight(s: string)
    requires s == [] || !IsSpace(s[0])
    ensures Strip(s[..GroupEnd(s)]) == s[..GroupEnd(s)]
  {
    var u := TrimRight(TrimDigitsRight(s));
    assert s[..GroupEnd(s)] == u;
    if u != [] {
      assert u[0] == s[0];
    }
    StripTight(u);
  }

  /** Without a newline in group 1, `GroupEnd` is the one least split point. */
  lemma GroupEndIsOnlyLeastMatch(s: string)
    requires '\n' !in s[..GroupEnd(s)]
    ensures LeastMatch(s, GroupEnd(s))
    ensures forall k: nat :: LeastMatch(s, k) ==> k == GroupEnd(s)
  {
    var k := GroupEnd(s);
    GroupEndIsLeastMatch(s);
    assert MatchesWithGroup(s, k);
    forall k': nat | LeastMatch(s, k') ensures k' == k {
      if k' < k {
        assert false;
      } else if k < k' {
        assert false;
      }
    }
  }

  /** With a newline in group 1, no split point matches at all. */
  lemma NoMatchPastNewline(s: string)
    requires '\n' in s[..GroupEnd(s)]
    ensures forall k: nat :: !MatchesWithGroup(s, k)
  {
    var k := GroupEnd(s);
    GroupEndIsLeastMatch(s);
    forall k': nat | MatchesWithGroup(s, k') ensures false {
      if k' < k {
        assert false;
      } else {
        assert false;
      }
    }
  }

  /** The computed base name is the one the regular expression defines. */
  lemma BaseNameFollowsPattern(name: string)
    ensures BaseName(name) == PatternBaseName(name)
  {
    var s := Strip(name);
    if '\n' !in s[..GroupEnd(s)] {
      PatternWithMatch(name);
    } else {
      PatternWithoutMatch(name);
    }
  }

  lemma PatternWithMatch(name: string)
    requires '\n' !in Strip(name)[..GroupEnd(Strip(name))]
    ensures BaseName(name) == PatternBaseName(name)
  {
    var s := Strip(name);
    var k := GroupEnd(s);
    GroupEndIsOnlyLeastMatch(s);
    var k': nat :| LeastMatch(s, k');
    assert k' == k;
  }

  lemma PatternWithoutMatch(name: string)
    requires '\n' in Strip(name)[..GroupEnd(Strip(name))]
    ensures BaseName(name) == name == PatternBaseName(name)
  {
    var s := Strip(name);
    NoMatchPastNewline(s);
    assert !exists k': nat :: LeastMatch(s, k');
  }

  /** A non-empty name never has an empty base name. */
  lemma BaseNameNonEmpty(name: string)
    requires name != []
    ensures BaseName(name) != []
  {
  }

  /** A base name different from the name is the stripped name minus a trailing number. */
  lemma BaseNameShape(name: string)
    ensures var r := BaseName(name);
      r == name || (r != [] && '\n' !in r && r == Strip(name)[..|r|]
                    && SpacesThenDigits(Strip(name)[|r|..]))
  {
    var s := Strip(name);
    GroupEndIsLeastMatch(s);
    GroupIsTight(s);
  }

  /** One device row of a loan as the slip query returns it (`ORDER BY g.name`). */
  datatype SlipRow = SlipRow(id: int, name: string, barcode: string, quantity: int)

  /** main.py: every row adds its loaned quantity to its base-name group. */
  function SlipEntries(rows: seq<SlipRow>): (es: seq<Tagged<SlipRow>>)
    ensures |es| == |rows|
    ensures forall i :: 0 <= i < |rows| ==> es[i] == Tagged(BaseName(rows[i].name), rows[i], rows[i].quantity)
  {
    seq(|rows|, i requires 0 <= i < |rows| => Tagged(BaseName(rows[i].name), rows[i], rows[i].quantity))
  }

  /** app.py: every row adds exactly one to its base-name group. */
  function LegacySlipEntries(rows: seq<SlipRow>): (es: seq<Tagged<SlipRow>>)
    ensures |es| == |rows|
    ensures forall i :: 0 <= i < |rows| ==> es[i] == Tagged(BaseName(rows[i].name), rows[i], 1)
  {
    seq(|rows|, i requires 0 <= i < |rows| => Tagged(BaseName(rows[i].name), rows[i], 1))
  }

  /** The slip table of main.py, in the order `sorted(grouped_devices.items())` gives. */
  function SlipGroups(rows: seq<SlipRow>): seq<Group<SlipRow>> {
    GroupAll(SlipEntries(rows))
  }

  /** The slip table of app.py. */
  function LegacySlipGroups(rows: seq<SlipRow>): seq<Group<SlipRow>> {
    GroupAll(LegacySlipEntries(rows))
  }

  /** The rows whose base name is `k`, in query order. */
  function RowsNamed(rows: seq<SlipRow>, k: string): seq<SlipRow> {
    if rows == [] then []
    else RowsNamed(rows[..|rows| - 1], k) + (if BaseName(rows[|rows| - 1].name) == k then [rows[|rows| - 1]] else [])
  }

  /** Sum of the loaned quantities of the rows whose base name is `k`. */
  function QuantityNamed(rows: seq<SlipRow>, k: string): int {
    if rows == [] then 0
    else QuantityNamed(rows[..|rows| - 1], k) + (if BaseName(rows[|rows| - 1].name) == k then rows[|rows| - 1].quantity else 0)
  }

  lemma {:induction false} MainEntriesPrefix(rows: seq<SlipRow>, k: string)
    ensures ItemsOf(SlipEntries(rows), k) == RowsNamed(rows, k)
    ensures WeightOf(SlipEntries(rows), k) == QuantityNamed(rows, k)
  {
    if rows != [] {
      var init := rows[..|rows| - 1];
      var es := SlipEntries(rows);
      var last := rows[|rows| - 1];
      var b := BaseName(last.name);
      MainEntriesPrefix(init, k);
      assert es[..|es| - 1] == SlipEntries(init);
      assert es[|es| - 1] == Tagged(b, last, last.quantity);
      assert ItemsOf(es, k) == ItemsOf(SlipEntries(init), k) + (if b == k then [last] else []);
      assert RowsNamed(rows, k) == RowsNamed(init, k) + (if b == k then [last] else []);
      assert WeightOf(es, k) == WeightOf(SlipEntries(init), k) + (if b == k then last.quantity else 0);
      assert QuantityNamed(rows, k) == QuantityNamed(init, k) + (if b == k then last.quantity else 0);
    }
  }

  lemma {:induction false} LegacyEntriesPrefix(rows: seq<SlipRow>, k: string)
    ensures ItemsOf(LegacySlipEntries(rows), k) == RowsNamed(rows, k)
    ensures WeightOf(LegacySlipEntries(rows), k) == |RowsNamed(rows, k)|
  {
    if rows != [] {
      var init := rows[..|rows| - 1];
      var es := LegacySlipEntries(rows);
      var last := rows[|rows| - 1];
      var b := BaseName(last.name);
      LegacyEntriesPrefix(init, k);
      assert es[..|es| - 1] == LegacySlipEntries(init);
      assert es[|es| - 1] == Tagged(b, last, 1);
      assert ItemsOf(es, k) == ItemsOf(LegacySlipEntries(init), k) + (if b == k then [last] else []);
      assert RowsNamed(rows, k) == RowsNamed(init, k) + (if b == k then [last] else []);
      assert WeightOf(es, k) == WeightOf(LegacySlipEntries(init), k) + (if b == k then 1 else 0);
    }
  }

  /** Both slip versions file a base name's rows in query order; main.py weighs them by quantity, app.py by one. */
  lemma SlipEntriesPrefix(rows: seq<SlipRow>, k: string)
    ensures ItemsOf(SlipEntries(rows), k) == RowsNamed(rows, k)
    ensures WeightOf(SlipEntries(rows), k) == QuantityNamed(rows, k)
    ensures ItemsOf(LegacySlipEntries(rows), k) == RowsNamed(rows, k)
    ensures WeightOf(LegacySlipEntries(rows), k) == |RowsNamed(rows, k)|
  {
    MainEntriesPrefix(rows, k);
    LegacyEntriesPrefix(rows, k);
  }

  lemma SlipKeys(rows: seq<SlipRow>)
    ensures TagKeys(SlipEntries(rows)) == set i | 0 <= i < |rows| :: BaseName(rows[i].name)
    ensures TagKeys(LegacySlipEntries(rows)) == set i | 0 <= i < |rows| :: BaseName(rows[i].name)
  {
  }

  /**
   * main.py's slip: one group per distinct base name, in ascending order; each
   * holds its rows in query order and counts their summed quantity.
   */
  lemma SlipGroupsSpec(rows: seq<SlipRow>)
    ensures Sorted(SlipGroups(rows))
    ensures Keys(SlipGroups(rows)) == set i | 0 <= i < |rows| :: BaseName(rows[i].name)
    ensures forall g :: g in SlipGroups(rows) ==>
      g.items == RowsNamed(rows, g.key) && g.count == QuantityNamed(rows, g.key)
  {
    var gs := SlipGroups(rows);
    GroupAllKeys(SlipEntries(rows));
    SlipKeys(rows);
    forall g | g in gs ensures g.items == RowsNamed(rows, g.key) && g.count == QuantityNamed(rows, g.key) {
      var i :| 0 <= i < |gs| && gs[i] == g;
      SortedLookup(gs, i);
      GroupAllLookup(SlipEntries(rows), g.key);
      LookupKeys(gs, g.key);
      GroupAllKeys(SlipEntries(rows));
      SlipEntriesPrefix(rows, g.key);
    }
  }

  /** app.py's slip: same groups, but each device counts exactly once. */
  lemma LegacySlipGroupsSpec(rows: seq<SlipRow>)
    ensures Sorted(LegacySlipGroups(rows))
    ensures Keys(LegacySlipGroups(rows)) == set i | 0 <= i < |rows| :: BaseName(rows[i].name)
    ensures forall g :: g in LegacySlipGroups(rows) ==>
      g.items == RowsNamed(rows, g.key) && g.count == |RowsNamed(rows, g.key)|
  {
    var gs := LegacySlipGroups(rows);
    GroupAllKeys(LegacySlipEntries(rows));
    SlipKeys(rows);
    forall g | g in gs ensures g.items == RowsNamed(rows, g.key) && g.count == |RowsNamed(rows, g.key)| {
      var i :| 0 <= i < |gs| && gs[i] == g;
      SortedLookup(gs, i);
      GroupAllLookup(LegacySlipEntries(rows), g.key);
      LookupKeys(gs, g.key);
      GroupAllKeys(LegacySlipEntries(rows));
      SlipEntriesPrefix(rows, g.key);
    }
  }

  /** No slip group is titled with an empty name when every device has a name. */
  lemma SlipKeysNonEmpty(rows: seq<SlipRow>)
    requires forall i :: 0 <= i < |rows| ==> rows[i].name != []
    ensures "" !in Keys(SlipGroups(rows)) && "" !in Keys(LegacySlipGroups(rows))
  {
    SlipGroupsSpec(rows);
    LegacySlipGroupsSpec(rows);
    forall i | 0 <= i < |rows| ensures BaseName(rows[i].name) != [] {
      BaseNameNonEmpty(rows[i].name);
    }
  }
}
