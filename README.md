# jlv table view — a Dafny model

jlv is a terminal viewer for JSON-lines files. Each input line is one record,
and the main view shows the records as a table. This project models the core of
that table view, `src/ui/table.rs`:

- the **column configuration** that `TableView::update_config` computes once and
  memoises. It holds one column per top-level key seen in any object record.
  Each column has an index, assigned in order of first sight, and a minimum
  width: the largest byte length of any rendered value under that key, or of
  the key itself.
- `TableViewConfig::ordered_columns` and `widths`, which put the columns in
  index order and give their widths as `u16`;
- `Record::to_row` and the rows and header that `render` builds;
- the **row cursor**: `new` selects row 3, Down and Up move it in
  `handle_keypress`, and `selected_record` reads the selected record.

Modules:

- `Wrappers` holds `Option`.
- `Json` is serde_json's `Value`, with a compact renderer standing in for
  `Value::to_string`, and `ByteLen`, the UTF-8 length that `str::len` returns.
- `Model` is the record.
- `Columns` is the specification of the configuration:
  - `Scan` and `Build` are the scan itself;
  - `FirstSeen` and `Widest` are independent reference definitions;
  - lemmas connect the two.
- `Table` has `TableViewConfig`, `ToRow`, the `TableView` class and the cursor.
  Its `UpdateConfig` loop is proved equal to `Build`.
- `Scenario` works through two records that share a key.

Where the code and the intended design differ, the model follows the code:

- `handle_keypress` never clamps Down to the last record. What ratatui's table
  widget does to an out-of-range selection while drawing is not modelled.
- `new` selects row 3.
- Up with nothing selected gives row 9.
- A row holds the record's own values in the object's order. It is not aligned
  to the columns.
- The header lists every object record's keys one after the other, repetitions
  included (`HeaderAlignedIffDistinctKeys`, `SecondRowIsItsOwnValues`).

`src/model.rs` declares `Record` with `raw` only, but `table.rs` reads a parsed
`value` from it. The model's `Record` carries both fields: the raw text and an
optional parsed value.

An object's members are a sequence in iteration order. Every property proved
here holds for any order: the text order (serde_json's `preserve_order`) or
sorted keys (its default map).

## Model

| member | source | states |
|---|---|---|
| Json.ByteLen | src/ui/table.rs:118 | the byte length `str::len` gives lies between the number of characters and four times it |
| Json.Render | src/ui/table.rs:50 | the text of every value, as `to_string` renders it into a cell, is non-empty |
| Model.AsObject | src/ui/table.rs:46 | a record yields members exactly when its value is present and is an object, and then yields that object's members |
| Columns.Demand | src/ui/table.rs:118-127 | definition: the width one member asks of its column, the larger of its rendered value's byte length and its key's; WidestBound, ScanWidths and BuildWidthCovers prove what it bounds |
| Columns.AllPairs | src/ui/table.rs:104-108 | definition: the members of every object record, record after record; AllPairsAppend, MemberIsGathered and GatheredIsMember prove what it gathers |
| Columns.Step | src/ui/table.rs:109-127 | definition: one pass of the inner loop; ScanKeysOldKey, ScanKeysNewKey and ScanWidths prove what it does to keys, indices and widths, and AddMember is proved equal to it |
| Columns.Scan | src/ui/table.rs:104-129 | definition: the inner loop's passes over a sequence of members from no columns; ScanMatchesReference and ScanIsWellIndexed prove what it computes |
| Columns.Build | src/ui/table.rs:101-137 | definition: the configuration update_config computes; BuildKeys, BuildWidthBounds, BuildWidthAttained, BuildIsWellIndexed, BuildExtends and NonObjectRecordIgnored prove what it computes |
| Columns.Widest | src/ui/table.rs:118-127 | definition: the reference width, the greatest demand among the members with a key; WidestBound, WidestAttained and WidestAbsent prove it is that maximum |
| Columns.FirstSeen | src/ui/table.rs:108-115 | the reference key order: distinct keys, exactly the keys that occur, in order of first occurrence |
| Columns.KeysOf | src/ui/table.rs:147-155 | the header has one entry per gathered member |
| Columns.WidestBound | src/ui/table.rs:118-127 | no member with key k demands more than the reference width of k |
| Columns.WidestAttained | src/ui/table.rs:118-127 | when k occurs, some member with key k demands exactly the reference width |
| Columns.WidestAbsent | src/ui/table.rs:113-116 | a key that never occurs has reference width 0 |
| Columns.KeysOfSnoc | src/ui/table.rs:151-152 | one more member appends its key to the header |
| Columns.ScanSnoc | src/ui/table.rs:108-128 | scanning one more member is one more pass of the inner loop |
| Columns.ScanOneMore | src/ui/table.rs:108-128 | the same, for the j-th member of an object being scanned |
| Columns.ScanKeysOldKey | src/ui/table.rs:110-116 | a member whose key is already a column leaves the keys and every index unchanged |
| Columns.ScanKeysNewKey | src/ui/table.rs:109-116 | a member with a new key appends it to the first-seen keys, with index equal to the number of earlier columns |
| Columns.ScanKeys | src/ui/table.rs:104-129 | the columns are exactly the first-seen keys, and the i-th key first seen has index i |
| Columns.ScanWidths | src/ui/table.rs:118-127 | each column's width is the greatest demand, max(value length, key length), among the members with its key |
| Columns.ScanMatchesReference | src/ui/table.rs:101-137 | the scan equals the reference schema: keys, order and widths |
| Columns.ScanIsWellIndexed | src/ui/table.rs:109-116 | the indices are a permutation of 0 .. n - 1 |
| Columns.ScanExtendsAt | src/ui/table.rs:110-127 | scanning further never removes a column, never changes its index and never narrows it |
| Columns.ScanExtends | src/ui/table.rs:110-127 | the same, for every column at once |
| Columns.NewKeyGetsCurrentCount | src/ui/table.rs:109-116 | a key first seen at position j keeps for good the index equal to the number of columns before j |
| Columns.FirstSeenIsAllKeysIffDistinct | src/ui/table.rs:147-155 | the distinct keys are as many as the members if and only if no key repeats |
| Columns.AllPairsAppend | src/ui/table.rs:104-108 | gathering two runs of records is gathering each, one after the other |
| Columns.MemberIsGathered | src/ui/table.rs:104-108 | every member of every object record is among the gathered members |
| Columns.GatheredIsMember | src/ui/table.rs:104-108 | every gathered member is a member of some object record |
| Columns.BuildKeys | src/ui/table.rs:104-116 | the configuration's keys are exactly the top-level keys of the object records |
| Columns.BuildWidthCovers | src/ui/table.rs:118-127 | every member has a column at least as wide as its value's and its key's byte length |
| Columns.BuildWidthBounds | src/ui/table.rs:118-127 | a column is at least as wide as its key and as every value under it |
| Columns.BuildWidthAttained | src/ui/table.rs:118-127 | a column's width is attained: it is the demand of one particular member |
| Columns.BuildIsWellIndexed | src/ui/table.rs:101-137 | the indices of the configuration are a permutation of 0 .. n - 1 |
| Columns.BuildExtends | src/ui/table.rs:104-129 | more records never remove, move or narrow a column |
| Columns.NonObjectRecordIgnored | src/ui/table.rs:105-106 | a record that is absent or not an object changes nothing, wherever it sits |
| Columns.NonObjectRecordHasNoPairs | src/ui/table.rs:105-106 | such a record contributes no members |
| Table.TableViewConfig.KeyAt | src/ui/table.rs:66-70 | in a well-indexed configuration, the key whose column has index i |
| Table.TableViewConfig.OrderedColumns | src/ui/table.rs:66-70 | every column exactly once, its configuration alongside, in strictly increasing order of index |
| Table.TableViewConfig.Widths | src/ui/table.rs:73-81 | one width per column in column order, each the width truncated to u16 |
| Model.Members | src/ui/table.rs:46-53 | definition: an object record's members in the object's order, none for any other record; AsObject and NonObjectRecordHasNoPairs carry its properties |
| Table.IsRowOf | src/ui/table.rs:39-56 | definition: a row holds one cell per member of the record, each its rendered value; ToRow and TableView.Render are proved to produce it |
| Table.ToRow | src/ui/table.rs:39-56 | one cell per member, in the object's order, each the rendered value; no cells for a non-object record |
| Table.Moved | src/ui/table.rs:175-199 | definition: the selection after one key press; TableView.HandleKeypress is proved to produce it, and DownThenUp, UpThenDown and OtherKeysKeepSelection prove its properties |
| Table.Replay | src/ui/table.rs:175-199 | definition: the selection after a sequence of key presses; DownsNeverClamp, UpsSaturate and ReplayBounds prove its properties |
| Table.DownsNeverClamp | src/ui/table.rs:180-185 | k presses of Down from row n select row n + k, with no upper bound |
| Table.UpsSaturate | src/ui/table.rs:186-194 | k presses of Up from row n select n - k, or 0 once k > n |
| Table.DownThenUp | src/ui/table.rs:180-194 | Down then Up returns to the starting row, or to row 0 when nothing was selected |
| Table.UpThenDown | src/ui/table.rs:180-194 | Up then Down returns to row n, except from row 0, which reaches row 1 |
| Table.ReplayBounds | src/ui/table.rs:175-199 | a row stays selected, and each press moves it by at most one row |
| Table.OtherKeysKeepSelection | src/ui/table.rs:197 | keys other than Up and Down never change the selection |
| Table.OrderedColumnsFollowFirstSight | src/ui/table.rs:66-70 | the built configuration is well indexed, and its ordered columns are the keys in order of first sight |
| Table.HeaderAlignedIffDistinctKeys | src/ui/table.rs:147-155 | the header is never shorter than the column list, and equally long exactly when no key repeats across the records |
| Table.ScanMembers | src/ui/table.rs:108-128 | the inner loop over one object's members extends the scan by exactly those members |
| Table.AddMember | src/ui/table.rs:109-127 | one pass of the inner loop: `or_insert` at the next index, then widening to the value's and the key's length |
| Table.Header | src/ui/table.rs:147-155 | the header `render` builds is the keys of all gathered members |
| Table.TableView.constructor | src/ui/table.rs:92-98 | no configuration yet, row 3 selected |
| Table.TableView.UpdateConfig | src/ui/table.rs:101-137 | the stored configuration is Build(records), well indexed; one already stored is returned unchanged (memoised); the selection is untouched |
| Table.TableView.Render | src/ui/table.rs:139-170 | one row per record, each that record's own row; the header of all keys; the widths of the stored configuration |
| Table.TableView.HandleKeypress | src/ui/table.rs:175-199 | the selection becomes Moved(selection, key code); the configuration is untouched |
| Table.TableView.SelectedRecord | src/ui/table.rs:204-206 | the record read at the selected row (row 0 when none is selected) is one of the table's records |
| Table.StartSelectsFourthRecord | src/ui/table.rs:92-98 | right after `new`, a record can be selected exactly when there are at least four, and it is the fourth |
| Table.UpsFromStartSelectFirstRecord | src/ui/table.rs:186-194 | from the initial row, three or more presses of Up select the first record of any non-empty table |
| Table.DownsLeaveTheTable | src/ui/table.rs:180-185 | as many presses of Down as there are records always move the selection past the last record |
| Scenario.TwoRecordsGathered | src/ui/table.rs:147-155 | for `{"a":1,"b":2}` then `{"b":3,"c":4}`, the header is a, b, b, c |
| Scenario.FirstRecordSchema | src/ui/table.rs:104-129 | the first record opens columns a and b, at indices 0 and 1, each 1 wide |
| Scenario.TwoRecordsSchema | src/ui/table.rs:104-129 | the two records give columns a, b, c at indices 0, 1, 2, each 1 wide; b keeps its first index |
| Scenario.SecondRowIsItsOwnValues | src/ui/table.rs:39-56 | the second row is ["3", "4"], two cells against three columns |

## Left out

- Table.TableViewConfig.OrderedColumns: requires the indices to be a permutation of 0 .. n - 1. Every configuration update_config builds meets this (`BuildIsWellIndexed`). For other maps, the order among equal indices depends on HashMap iteration.
- Table.TableViewConfig.Widths: the `as u16` truncation is modelled as reduction modulo 65536; `min_width` is never negative here.
- Table.TableView.Render: the `expect` on a missing configuration is a precondition, since the model has no panics.
- Table.TableView.Render: ratatui's drawing, styles and highlight are not modelled. Any adjustment the table widget makes to the selection while drawing is foreign code.
- Table.ToRow: the panic for other row view types is not modelled, since `ObjSimple` is the only one.
- Json.Render: numbers are integers only, with no floating point. The renderer follows serde_json's compact form and escapes, but it is not serde_json's code.
- Table.TableView.SelectedRecord: the out-of-range index panic is modelled as the precondition CanSelect. Its ensures says only that the result is one of the records; which one is given by the lemmas StartSelectsFourthRecord and UpsFromStartSelectFirstRecord.
- Table.TableView.HandleKeypress: the selection is an unbounded natural, so `unwrap_or(0) + 1` on a `usize` overflowing at usize::MAX is not modelled.
- Column lengths and indices are unbounded naturals. The `as i32` casts of `len()` would only wrap on inputs over 2 GiB.
- Key events carry only their code. Modifiers, kind and state are ignored by the table and not modelled. Only some key codes are listed, since all besides Up and Down act alike.
- The record source is the `records` sequence. Its title and the `Rc<Box<dyn RecordSource>>` sharing are not modelled.
- `Record::from_str` is not part of this model. Nor are JSON parsing and the input, mux, detail, view and main modules.
- Keys within one object are not required to be distinct, as they are in serde_json's map. Every property here holds without that.
