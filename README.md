# Device lending ledger of DMS, modelled in Dafny

DMS is a small Flask application for lending equipment (instruments,
devices) out of school or club warehouses. Each warehouse is an SQLite file
with a device table (`geraete`), a loan table (`ausleihen`) and a loan-line
table (`ausleih_details`). A signed-in user scans barcodes into a borrow cart
held in the session, commits the cart as a loan, and later returns some or
all of the loan's devices.

This project models the lending ledger twice:

- **main.py**, the current version. A device row has a stock `quantity`.
  The cart holds `{id, name, barcode, quantity, max_quantity}`. A device's
  `status` column is derived from the lines of active loans: `verfügbar`,
  or a name-sorted summary `"Anna (2), Ben (1)"`.
- **app.py**, the older version. Every device row is one unit, and the
  status column is written directly: `ausgeliehen an <name>` on commit,
  `verfügbar` on return, `defekt` or `verfügbar` on edit.

Besides the ledger, the model covers:

- the description log kept by the edit form, and reading its newest entry;
- the base-name grouping of borrow slips (`get_base_name`);
- the choice of the default label layout.

Layout:

- `wrappers.dfy`: `Option`.
- `text.dfy`: Python string behaviour the code relies on:
  - `strip`, whitespace as `str.isspace` defines it;
  - `split` and `join` on one character;
  - `s.split('\n\n')[0]`;
  - `str(int)`;
  - code-point string order, which is Python's `<` and SQLite's BINARY collation.
- `grouping.dfy`: a sorted group-by with per-group sums. It is shared by the
  status summary (`GROUP BY ... ORDER BY`) and by the slips
  (`sorted(grouped_devices.items())`).
- `ledger.dfy`: the tables of main.py, the SQL join of lines with active
  loans, `update_device_status`.
- `cart.dfy`, `loans.dfy`, `edit.dfy`: main.py's borrow cart, commit and
  return, and edit form, as functions with their lemmas.
- `devicelog.dfy`: the description log (prepend on change, newest entry shown).
- `slip.dfy`: `get_base_name` and the slip groups of both versions.
- `labels.dfy`: `set_default_label`, the same in both versions.
- `warehouse.dfy`: class `Lending.Warehouse`. It holds one main.py warehouse
  and a session cart as fields that its methods update in place, with the
  handlers' loops. Each method is proved to compute its specification function.
- `legacy.dfy`, `legacywarehouse.dfy`: the same for app.py.

The tables are sequences in row order. An SQL query becomes a function over
them: the first row that `fetchone` returns, a filter for `DELETE`, a
point-wise rewrite for `UPDATE`. Loan ids are not unique in the code:

- `generate_random_id(4)` draws four digits and checks nothing;
- the loan table is therefore a sequence, not a map;
- the join yields one row per matching loan row, as SQL does.

Lemmas that need a fresh id say so with `FreshLoanId`.

## Model

| member | source | states |
|---|---|---|
| Text.Strip | main.py:1687 | `strip()`: the result neither starts nor ends with whitespace. It is empty exactly when the input is all whitespace. |
| Text.StripSlice | main.py:1687 | `strip()` splits the input into a whitespace run, the result and another whitespace run. With `Strip`'s own contract (the result neither starts nor ends with whitespace), this makes the result exactly the input minus its leading and trailing whitespace. |
| Text.Split | main.py:1675 | `split('\n')`: there is at least one part, and no part contains the separator. |
| Text.JoinSplit | main.py:1675 | Joining the parts of a split with the separator gives the string back. |
| Text.FirstParagraph | main.py:970-972 | `split('\n\n')[0]` is the prefix before the first paragraph break, or the whole text when it has none. |
| Text.IntToString | main.py:1654 | The `{qty}` of the status string is the decimal form of the number. Reading it back gives the number, with a minus sign for a negative one. There is no leading zero, except in `0` itself. |
| Text.ParseNatToString | main.py:1654 | Reading the decimal form of a natural number gives the number back. |
| Text.LessTotal | main.py:1646-1647 | The order used for `ORDER BY` is total on distinct strings. |
| Text.LessTransitive | main.py:1646-1647 | The order used for `ORDER BY` is transitive. |
| Grouping.GroupAll | main.py:1642-1647 | Grouping the joined rows gives groups sorted strictly by key. |
| Grouping.GroupAllKeys | main.py:1642-1647 | There is exactly one group per distinct key of the rows. |
| Grouping.GroupAllLookup | main.py:1642-1647 | A key's group holds exactly that key's rows, in input order, and its count is the sum of their weights. Keys without rows have no group. |
| Grouping.GroupAllTotal | main.py:1642-1647 | The groups' counts add up to the total weight of the rows. |
| Grouping.InsertLookup | main.py:1288-1305 | Filing one row extends its key's group, or creates it, and leaves every other group as it was. |
| Ledger.Matches | main.py:1642-1645 | A line joins once with each active loan row with the same loan id. Each joined row carries the line and its quantity. |
| Ledger.DerivedStatusAvailable | main.py:1651-1652 | The derived status is `verfügbar` exactly when no line of the device is on an active loan. |
| Ledger.DerivedStatusBorrowed | main.py:1653-1655 | Otherwise the status is the `", "`-join of the borrower entries of a non-empty summary. |
| Ledger.SummarySpec | main.py:1642-1648 | The summary: sorted by name, one entry per borrower with an active line of the device, each count that borrower's summed quantity (the reference `QuantityOf`), and the counts together are the units out. |
| Ledger.ReturnedLoansIgnored | main.py:1645 | Returned loans make no difference to the status or to the units out. |
| Ledger.BorrowerEntry | main.py:1654 | `"<name> (<qty>)"` is never empty and ends in `)`. |
| Ledger.RenderStatus | main.py:1651-1655 | With at least one borrower, the status ends in `)`, so it can never read `verfügbar`. |
| Ledger.FindById | main.py:1634-1637 | `SELECT ... WHERE id = ?`. The result is a row with that id, and it is absent exactly when no row has the id. |
| Ledger.SetStatus | main.py:1657 | `UPDATE geraete SET status = ? WHERE id = ?` rewrites the status of the rows with that id and nothing else. |
| Ledger.UpdateDeviceStatus | main.py:1634-1657 | An unknown id changes nothing. Otherwise every row with the id gets the derived status, and loans, lines and other rows stay. |
| Ledger.UpdateCurrent | main.py:1620-1664 | Recomputing a status that already matches the loan tables changes nothing. |
| Ledger.SameButStatusKeys | main.py:1657 | Status writes keep device ids and barcodes unique. |
| Ledger.UpdateKeepsCurrent | main.py:1657 | Updating one device's status keeps another device's status current when it already was. |
| Ledger.JoinedAppend | main.py:1758-1759 | Inserted lines add their own joined rows to a device's rows. |
| BorrowCart.FindByBarcode | main.py:1691-1692 | `SELECT ... WHERE barcode = ?`. The result is a row with that barcode, and it is absent exactly when none has it. |
| BorrowCart.CartIndex | main.py:1705 | `next(d for d in borrow_list if d['id'] == device_id)` finds an entry with the id, and fails exactly when there is none. |
| BorrowCart.AddBarcodeSpec | main.py:1691-1722 | One barcode. A rejected barcode leaves the cart unchanged. It is rejected as unknown exactly when no device has it; as exhausted exactly when available (stock minus units on active loans) is at most 0; at the cap exactly when 0 < available and the cart already holds at least available. Otherwise exactly one unit of that device is added. |
| BorrowCart.AddFoundRejects | main.py:1699-1716 | For a known barcode: exhausted exactly when available is at most 0, at the cap exactly when 0 < available and the cart already holds at least available. A rejection leaves the cart unchanged and is never an unknown-barcode error. |
| BorrowCart.AddFoundGrows | main.py:1705-1720 | An accepted known barcode adds its device id to the cart's ids and exactly one unit of that device, and no unit of any other. |
| BorrowCart.AddBarcodeEntry | main.py:1705-1720 | An accepted barcode appends a device new to the cart with quantity 1 and `max_quantity` = available. A device already in the cart gains one unit in its own entry, and every other entry stays. |
| BorrowCart.AddBarcodeDistinct | main.py:1705-1720 | One barcode keeps the cart's device ids distinct. |
| BorrowCart.AddBarcodeWithin | main.py:1699-1720 | On a table with unique keys, every entry stays between 1 and the units available. |
| BorrowCart.ScannedLines | main.py:1675 | `strip().split('\n')`: at least one line, and joining the lines gives back the stripped input. |
| BorrowCart.Next | main.py:1686-1722 | A line that is blank once stripped changes nothing. Any other line either adds one to `added_count` and leaves the errors alone, or keeps the count and appends exactly one error. |
| BorrowCart.AddAllSpec | main.py:1675-1722 | Over a batch, ids stay distinct and `added_count` plus the errors equals the number of non-blank lines. The cart gains exactly `added_count` units and keeps every device it had. |
| BorrowCart.AddAllWithin | main.py:1686-1722 | Over a batch, the cart stays within availability. |
| BorrowCart.AddAllUnknown | main.py:1721-1722 | A batch of unknown barcodes leaves the cart unchanged, counts nothing, and reports only unknown-barcode errors. |
| BorrowCart.RemoveFromBorrow | main.py:1959-1964 | No entry with the id remains, and only entries of the cart do. |
| BorrowCart.RemoveFromBorrowAppend | main.py:1962 | The filter works entry by entry, so the kept entries keep their order. |
| BorrowCart.RemoveFromBorrowSingle | main.py:1962 | A single entry is kept exactly when its id differs. |
| BorrowCart.RemoveFromBorrowMembers | main.py:1962 | An entry survives exactly when it was in the cart for another device. |
| BorrowCart.RemoveFromBorrowQty | main.py:1962 | The removed device has no units left, and every other device keeps its units. |
| BorrowCart.RemoveFromBorrowDistinct | main.py:1962 | Removal keeps ids distinct. |
| BorrowCart.RemoveFromBorrowIdempotent | main.py:1959-1964 | Removing twice is removing once. |
| Borrowing.NewLines | main.py:1757-1759 | One line per cart entry, in cart order, each carrying the entry's quantity. |
| Borrowing.MatchesOfNewLoan | main.py:1753-1759 | With a fresh loan id, a line of the new loan joins exactly once: with the new loan's borrower and its own quantity. |
| Borrowing.CommitSpec | main.py:1744-1769 | An empty cart changes nothing. Otherwise exactly one active loan row for the borrower is added, and one line per cart entry. Only status columns change: devices outside the cart keep theirs, and every cart device shows the status of the final tables. |
| Borrowing.CommitLinesTables | main.py:1757-1760 | The commit loop appends exactly the cart's lines and touches no loan row. It changes only status columns, and only those of cart devices. |
| Borrowing.CommitLinesStatus | main.py:1757-1760 | After the loop, every cart device's status matches the final tables. |
| Borrowing.CommitBorrowed | main.py:1753-1760 | With a fresh loan id, each device's units out grow by exactly the cart's quantity of it. |
| Borrowing.CommitWithinStock | main.py:1744-1760 | With a fresh id and a cart still within availability, no device of the cart has more units out than its stock. Devices outside the cart keep their units out, so with unique keys a table within its stock before the commit stays within it after. |
| Borrowing.CloseLoan | main.py:1803 | Every loan row with the id becomes `zurückgegeben`, and the other rows stay. |
| Borrowing.Kept | main.py:1796-1797 | Reference filter: no kept line is a listed device of the loan. |
| Borrowing.DropKept | main.py:1796-1797 | One more `DELETE` is one more id removed by the reference filter. |
| Borrowing.ReturnLinesSpec | main.py:1796-1798 | The return loop leaves exactly the reference lines and no loan row changes. Listed devices show the current status, and only status columns change. |
| Borrowing.KeptBorrowed | main.py:1796-1798 | With no negative line quantity, deleting lines never puts more units of a device out. |
| Borrowing.ReturnBorrowedNonIncreasing | main.py:1786-1803 | With no negative line quantity, a return never puts more units of any device out than before. |
| Borrowing.ReturnWithinStock | main.py:1786-1803 | If no device had more units out than its stock before a return, none has after it. |
| Borrowing.StaleCartExceedsStock | main.py:1744-1760 | Counterexample: two carts filled while the only unit was free, committed under fresh ids, put two units out of a stock of one. |
| Borrowing.ReusedLoanIdOvercounts | main.py:1745-1760 | Counterexample: the same one-unit cart committed twice under one loan id counts four units out, not two. |
| Borrowing.ReturnSpec | main.py:1796-1803 | After a return, no line of the loan remains for a listed device, and every other line stays in order. The loan's rows become `zurückgegeben` exactly when the loan has no line left, and other loans stay. Unlisted devices keep their row, and listed devices show the status of the final tables. |
| Borrowing.CountLinesZero | main.py:1800-1802 | `COUNT(*)` is 0 exactly when no line has the loan id. |
| Borrowing.JoinedClosed | main.py:1802-1803 | Closing a loan with no lines left does not change any device's joined rows. |
| Borrowing.KeptMembers | main.py:1796-1797 | A line survives exactly when it is not a listed device on this loan. |
| Borrowing.KeptIdempotent | main.py:1796-1797 | Filtering twice is filtering once. |
| Borrowing.ReturnLinesNoop | main.py:1796-1798 | Listing devices with no line on the loan, whose statuses are current, changes nothing. |
| Borrowing.CloseLoanIdempotent | main.py:1803 | Closing twice is closing once. |
| Borrowing.ReturnIdempotent | main.py:1786-1811 | Submitting the same return twice has the effect of submitting it once. |
| DeviceLog.UpdatedDescription | main.py:935-945 | An unchanged description stays as it was. A changed one is the entry `"[ts - user] new"` alone when the old log was empty. Otherwise it is the entry, then `"\n\n"`, then the old log, so the old log can be read back after the separator. |
| DeviceLog.EntryText | main.py:973-975 | The text of an entry is non-empty only for an entry that starts with `[` and contains `]`. It is already stripped. |
| DeviceLog.CurrentDescription | main.py:967-975 | The shown description is already stripped. |
| DeviceLog.EditedDescriptionShown | main.py:936-941 | Round trip: after a changed description is logged, the form shows the submitted text, stripped. This holds when neither stamp part contains `]` or a line break and the text has no paragraph break. |
| DeviceLog.NewestEntryFirst | main.py:939-941 | The newest entry is the log's first paragraph. |
| DeviceLog.ShownOfEntry | main.py:973-975 | The shown text of a stamped entry is its text after the stamp, stripped. |
| DeviceLog.UnstampedShowsNothing | main.py:973 | A first paragraph that does not start with `[` shows an empty description. |
| DeviceEdit.Overwrite | main.py:952-953 | The `UPDATE ... WHERE id = ?` writes the form into the rows with that id only. |
| DeviceEdit.OverwriteKeysUnique | main.py:930-953 | Writing a barcode that no other device holds keeps device ids and barcodes unique. |
| DeviceEdit.EditDeviceSpec | main.py:930-957 | A barcode held by another device rejects the edit, and a missing device fails it; neither changes anything. A saved edit writes name, barcode and quantity, prepends to the log only when the description changed, and sets the status to `defekt` or to the one derived from the loans. Loans, lines and other devices stay. |
| DeviceEdit.EditedStatus | main.py:948-957 | A saved, non-defective device shows `verfügbar` exactly when none of its lines is on an active loan. |
| DeviceEdit.EditKeepsKeysUnique | main.py:930-933 | Edits keep device ids and barcodes unique. |
| DeviceEdit.EditedDescriptionRoundTrip | main.py:935-975 | What is typed into the edit form is what the form shows next, stripped, under the conditions of `EditedDescriptionShown`. |
| BorrowSlip.GroupEnd | main.py:1277 | Where the lazy group `(.*?)` ends. |
| BorrowSlip.GroupEndIsLeastMatch | main.py:1277 | The rest after group 1 is whitespace then ASCII digits. No earlier split point matches. |
| BorrowSlip.BaseNameFollowsPattern | main.py:1276-1281 | The computed base name is the one the regular expression `^(.*?)\s*\d*$` defines. The pattern fails, and the name is returned unchanged, exactly when the part before the trailing whitespace and digits holds a line break; a break inside that trailing whitespace still matches (`"abc\n12"` gives `abc`). |
| BorrowSlip.GroupIsTight | main.py:1279 | Group 1 of a stripped name is already stripped. |
| BorrowSlip.BaseNameShape | main.py:1276-1281 | The base name is either the name itself, or the non-empty stripped name minus a trailing run of whitespace and digits. |
| BorrowSlip.BaseNameNonEmpty | main.py:1280 | A non-empty name never has an empty base name. |
| BorrowSlip.SlipEntries | main.py:1284-1305 | Every row is filed under its base name with its loaned quantity as weight. |
| BorrowSlip.SlipGroupsSpec | main.py:1283-1306 | The groups come in sorted base-name order, one per distinct base name. Each holds its rows in query order with count equal to their summed quantity. |
| BorrowSlip.SlipEntriesPrefix | main.py:1490-1511 | The duplicated grouping: a base name's items and weight are its rows and their summed quantity. |
| BorrowSlip.MainEntriesPrefix | main.py:1284-1305 | main.py: a base name's items are its rows in query order, and its weight is their summed quantity. |
| BorrowSlip.LegacyEntriesPrefix | app.py:582-602 | app.py: a base name's items are its rows in query order, and its weight is their number. |
| BorrowSlip.SlipKeys | main.py:1492 | The group keys are exactly the rows' base names. |
| BorrowSlip.LegacySlipEntries | app.py:582-602 | app.py files every row with weight 1. |
| BorrowSlip.LegacySlipGroupsSpec | app.py:573-603 | app.py's slip has the same sorted groups. Each device adds exactly 1 to its group's count. |
| BorrowSlip.SlipKeysNonEmpty | app.py:573-579 | When every device has a name, no slip group, old or new, has an empty base name. |
| LabelLayouts.ClearDefaults | main.py:2420 | Every layout loses its default flag and nothing else changes. |
| LabelLayouts.MarkDefault | main.py:2421 | Only layouts with the id get the flag. |
| LabelLayouts.SetDefaultLabelSpec | main.py:2420-2421 | Afterwards a layout is the default exactly when it has the given id. Ids, names and order are untouched. |
| LabelLayouts.SingleDefault | app.py:1351-1352 | The default ids are exactly `{id}` when some layout has the id, and none otherwise. No other layout is the default. |
| LabelLayouts.SetDefaultLabelIdempotent | main.py:2420-2421 | Choosing the same default twice is choosing it once. |
| Lending.Warehouse.constructor | main.py:1677-1678 | A warehouse starts with the given tables and an empty cart. |
| Lending.Warehouse.UpdateDeviceStatus | main.py:1620-1664 | The tables become `Ledger.UpdateDeviceStatus` of the old ones, and the cart stays. |
| Lending.Warehouse.AddOne | main.py:1691-1722 | Handling one barcode in place changes no table. The cart and error are those of `AddBarcode`. |
| Lending.Warehouse.ScanLine | main.py:1686-1722 | One iteration of the batch loop extends the batch exactly as `AddAll` does for one more line. |
| Lending.Warehouse.AddLines | main.py:1686-1722 | The loop over the scanned lines changes no table and ends with the cart, count and errors of `AddAll` on the old cart. |
| Lending.Warehouse.AddToBorrowList | main.py:1674-1731 | The batch loop changes no table and keeps the cart's ids distinct. It ends with the cart, `added_count` and error list of `AddBarcodes` on the old state. |
| Lending.Warehouse.InsertLines | main.py:1757-1760 | The loop inserts each cart entry's line and then updates that device's status. The tables become `Borrowing.CommitLines` of the old ones, and the cart stays. |
| Lending.Warehouse.CompleteBorrow | main.py:1744-1769 | The commit loop leaves the tables `Borrowing.Commit` gives, with the cart emptied and keys unique. |
| Lending.Warehouse.ReturnDevices | main.py:1786-1811 | The return loop and the closing leave the tables `Borrowing.Return` gives. The cart is untouched. |
| Lending.Warehouse.EditDevice | main.py:912-959 | The edit in place yields the tables and outcome of `DeviceEdit.EditDevice`, with keys unique and the cart untouched. |
| Lending.Warehouse.RemoveFromBorrow | main.py:1959-1964 | The cart becomes the filtered cart and no table changes. |
| LegacyLedger.FindAvailable | app.py:459-460 | `SELECT ... WHERE barcode = ? AND status = 'verfügbar'`. The result is such a unit, and it is absent exactly when there is none. |
| LegacyLedger.AddDeviceSpec | app.py:459-467 | With the schema's unique barcodes, a barcode grows the cart exactly when it belongs to a unit that is exactly `verfügbar` and not yet in the cart. It grows by that unit, and otherwise the cart is unchanged. |
| LegacyLedger.AddDeviceDistinct | app.py:463-466 | The cart's ids stay distinct. |
| LegacyLedger.LentTo | app.py:493-494 | `ausgeliehen an <name>` is never `verfügbar` or `defekt`. |
| LegacyLedger.SetUnitStatus | app.py:493-494 | The status write touches the rows with the id only. |
| LegacyLedger.NewDetails | app.py:490-492 | One line per cart entry, in cart order. |
| LegacyLedger.CommitPicksSpec | app.py:490-494 | The commit loop appends exactly the cart's lines and marks exactly the cart's units `ausgeliehen an <name>`. |
| LegacyLedger.CommitSpec | app.py:480-500 | An empty cart changes nothing. Otherwise one loan and one line per entry are added; exactly the cart's units read `ausgeliehen an <name>`, and every other row stays. |
| LegacyLedger.CommittedNotAddable | app.py:459-494 | After a commit, no barcode can put a committed unit into a cart again. |
| LegacyLedger.KeptDetails | app.py:730-732 | Reference filter: no kept line is a listed unit of the loan. |
| LegacyLedger.ReturnUnitsSpec | app.py:730-732 | The return loop leaves exactly the reference lines. Each listed unit reads `verfügbar` and the others keep their rows. |
| LegacyLedger.CountDetailsZero | app.py:734-736 | `COUNT(*)` is 0 exactly when no line has the loan id. |
| LegacyLedger.ReturnSpec | app.py:730-737 | After a return, no line of the loan remains for a listed unit, and every other line stays in order. Each listed unit reads `verfügbar`, even one the loan did not hold, and the others keep their status. The loan's rows become `zurückgegeben` exactly when none of its lines remain. |
| LegacyLedger.ReturnIdempotent | app.py:730-737 | Submitting the same return twice has the effect of submitting it once. |
| LegacyLedger.FindUnit | app.py:372-373 | `SELECT * FROM geraete WHERE id = ?`. The result is a row with the id, and it is absent exactly when none has it. |
| LegacyLedger.OverwriteUnit | app.py:405-406 | The `UPDATE` writes the form into the rows with the id only. |
| LegacyLedger.EditUnitSpec | app.py:387-406 | A barcode of another unit rejects the edit, and nothing changes. A saved edit writes `defekt` or `verfügbar` from the check box even while the unit is on an open loan, and prepends to the log only when the description changed. Loans, lines and other units stay. |
| LegacyLedger.EditUnitKeysUnique | app.py:387-390 | Edits keep ids and barcodes unique. |
| LegacyLedger.RemovePick | app.py:893 | No entry with the id remains, and only entries of the cart do. |
| LegacyLedger.RemovePickAppend | app.py:893 | The filter works entry by entry, so the kept entries keep their original order. |
| LegacyLedger.RemovePickSingle | app.py:893 | A single entry is kept exactly when its id differs. |
| LegacyLedger.RemovePickMembers | app.py:893 | An entry survives exactly when it was in the cart for another unit. |
| LegacyLedger.RemovePickDistinct | app.py:893 | Removal keeps ids distinct. |
| LegacyLending.LegacyWarehouse.constructor | app.py:453-455 | A warehouse starts with the given tables and an empty cart. |
| LegacyLending.LegacyWarehouse.AddToBorrowList | app.py:452-467 | Adding a barcode in place changes no table, keeps ids distinct, and leaves the cart `AddDevice` gives. |
| LegacyLending.LegacyWarehouse.CompleteBorrow | app.py:480-500 | The commit loop leaves the tables `LegacyLedger.Commit` gives, and the cart is emptied. |
| LegacyLending.LegacyWarehouse.ReturnDevices | app.py:730-737 | The return loop and the closing leave the tables `LegacyLedger.Return` gives. |
| LegacyLending.LegacyWarehouse.EditDevice | app.py:387-406 | The edit in place yields the tables and outcome of `LegacyLedger.EditUnit`. |
| LegacyLending.LegacyWarehouse.RemoveFromBorrow | app.py:893 | The cart becomes the filtered cart and no table changes. |

## Left out

- Flask routing, templates, `flash` messages and redirects. The session is a cart field, and the flash messages are returned as `added` and a list of `AddError` values rather than German text.
- SQLite itself. Tables are sequences in row order and queries are functions over them; connections, transactions and commit points are not modelled. Each handler runs as one atomic step.
- Backups (`backup_db`), schema migrations, QR/PDF/Word/CSV rendering, prices, images and label drawing. These are file-system I/O or foreign libraries. Of the slips, only the grouping and its order are modelled.
- Random loan ids (`generate_random_id(4)`). The id is a parameter; the code does not check it for collisions, so neither does `Commit`.
- Borrowing.CommitBorrowed: requires `FreshLoanId`. With a reused id, the new lines also join the older loan rows, and the units out grow by more than the cart (`ReusedLoanIdOvercounts`).
- Borrowing.CommitWithinStock: requires the cart to still be within availability at commit time. The code does not re-check it, so a cart filled before another session's commit can exceed the stock (`StaleCartExceedsStock`).
- `datetime.now()` and the session user name. They are parameters of the edit.
- Form parsing: the conversion of the `quantity` field with `int(...)` and of return ids from strings is not modelled; ids are integers.
- Device columns the ledger does not use: location, serial number, model, kind, inventory number, purchase date, price, manufacturer. They are written by the edit but not modelled.
- main.py's edit accepts any stock `quantity`, even one below the units currently out. No contract claims otherwise.
- `\d` in `get_base_name` is modelled as the ASCII digits `0`-`9`; for a `str` pattern, Python also matches other Unicode decimal digits.
- DeviceEdit.EditDeviceSpec: main.py's edit of a missing device fails with a `TypeError` on `device[5]` (main.py:935) once the barcode check has passed. The model gives the `NoSuchDevice` outcome with no change instead, and the contract states that outcome.
- DeviceEdit.EditDevice: the same missing-device crash at main.py:935 is modelled as `NoSuchDevice`.
- Lending.Warehouse.EditDevice: the same missing-device crash at main.py:935 is modelled as `NoSuchDevice`, leaving the tables unchanged.
- LegacyLedger.EditUnitSpec: app.py's edit of a missing unit fails on `device[5]` in the same way. It is modelled as the `NoSuchDevice` outcome, with no change.
- Login, warehouse access, search and filtering, Spotify and Meross integration, and the update check. These are not part of this model.
