/**
 The table view (src/ui/table.rs): the column configuration it computes once and
 keeps, the rows and the header it assembles from the records, and the row
 cursor that the Up and Down keys move.
 */
module Table {
  import opened Wrappers
  import opened Json
  import opened Model
  import opened Columns

  /** Rust's `u16`, the type ratatui takes column widths in. */
  newtype u16 = x: int | 0 <= x < 0x1_0000

  /** The ways a record can be shown as a row; there is only one, a cell per top-level member. */
  datatype RowViewType = ObjSimple

  /** The codes a key event carries (crossterm's `KeyCode`; only Up and Down mean anything to the table). */
  datatype KeyCode = Up | Down | Left | Right | Enter | Esc | Tab | Backspace | Char(c: char)

  /** A key event; the table looks at its code only. */
  datatype KeyEvent = KeyEvent(code: KeyCode)

  /** The calculated configuration for rendering a table of records: every column by key. */
  datatype TableViewConfig = TableViewConfig(columns: Config) {

    /** The key of the column whose index is `i`. */
    function KeyAt(i: nat): (k: string)
      requires WellIndexed(columns) && i < |columns|
      ensures k in columns && columns[k].index == i
    {
      assert HasIndex(columns, i);
      var k :| k in columns && columns[k].index == i;
      k
    }

    /**
     The columns sorted by index: every column exactly once, in strictly
     increasing order of index. Defined for the configurations update_config
     builds, whose indices are exactly 0 .. n - 1.
     */
    function OrderedColumns(): (r: seq<(string, ColumnConfig)>)
      requires WellIndexed(columns)
      ensures |r| == |columns|
      ensures forall i :: 0 <= i < |r| ==> r[i].0 in columns && r[i].1 == columns[r[i].0] && r[i].1.index == i
      ensures forall i, j :: 0 <= i < j < |r| ==> r[i].1.index < r[j].1.index
      ensures forall k :: k in columns ==> exists i :: 0 <= i < |r| && r[i].0 == k
    {
      var r := seq(|columns|, i requires 0 <= i < |columns| => (KeyAt(i), columns[KeyAt(i)]));
      assert forall k :: k in columns ==> r[columns[k].index].0 == k;
      r
    }

    /** The widths of the columns in column order, each truncated to `u16` as `as u16` does. */
    method Widths() returns (widths: seq<u16>)
      requires WellIndexed(columns)
      ensures |widths| == |columns|
      ensures forall i :: 0 <= i < |widths| ==> widths[i] as int == OrderedColumns()[i].1.minWidth % 0x1_0000
    {
      var ordered := OrderedColumns();
      widths := [];
      for i := 0 to |ordered|
        invariant |widths| == i
        invariant forall n :: 0 <= n < i ==> widths[n] as int == ordered[n].1.minWidth % 0x1_0000
      {
        widths := widths + [(ordered[i].1.minWidth % 0x1_0000) as u16];
      }
    }
  }

  /** `cells` is the row of `record`: the rendered value of each of its members, in the object's order. */
  ghost predicate IsRowOf(cells: seq<string>, record: Record) {
    && |cells| == |Members(record)|
    && forall j :: 0 <= j < |cells| ==> cells[j] == Json.Render(Members(record)[j].value)
  }

  /**
   `Record::to_row`: one cell per top-level member of the record's object, in the
   object's own order, each the member's rendered value; no cell at all when the
   value is absent or is not an object.
   */
  method ToRow(record: Record, view: RowViewType) returns (cells: seq<string>)
    ensures IsRowOf(cells, record)
    ensures AsObject(record).None? ==> cells == []
  {
    cells := [];
    match AsObject(record) {
      case None =>
      case Some(members) =>
        for j := 0 to |members|
          invariant |cells| == j
          invariant forall n :: 0 <= n < j ==> cells[n] == Json.Render(members[n].value)
        {
          cells := cells + [Json.Render(members[j].value)];
        }
    }
  }

  /** The selection after one key press, as handle_keypress computes it. */
  function Moved(selected: Option<nat>, code: KeyCode): Option<nat> {
    match code
    case Down => Some(selected.GetOr(0) + 1)
    case Up => Some(if selected.GetOr(10) == 0 then 0 else selected.GetOr(10) - 1)
    case _ => selected
  }

  /** The selection after a sequence of key presses, the first one first. */
  function Replay(selected: Option<nat>, codes: seq<KeyCode>): Option<nat>
    decreases codes
  {
    if codes == [] then selected else Replay(Moved(selected, codes[0]), codes[1..])
  }

  /** `n` presses of the same key. */
  function Presses(code: KeyCode, n: nat): (r: seq<KeyCode>)
    ensures |r| == n && forall i :: 0 <= i < n ==> r[i] == code
  {
    seq(n, _ => code)
  }

  /** Down is never clamped: each press selects the next row, past the last record too. */
  lemma {:induction false} DownsNeverClamp(n: nat, k: nat)
    ensures Replay(Some(n), Presses(Down, k)) == Some(n + k)
    decreases k
  {
    if k > 0 {
      var codes := Presses(Down, k);
      assert codes[1..] == Presses(Down, k - 1);
      DownsNeverClamp(n + 1, k - 1);
    }
  }

  /** Up walks back one row per press and then stays on row 0. */
  lemma {:induction false} UpsSaturate(n: nat, k: nat)
    ensures Replay(Some(n), Presses(Up, k)) == Some(if k <= n then n - k else 0)
    decreases k
  {
    if k > 0 {
      var codes := Presses(Up, k);
      assert codes[1..] == Presses(Up, k - 1);
      UpsSaturate(if n == 0 then 0 else n - 1, k - 1);
    }
  }

  /** Down then Up comes back to the row Down started from (row 0 when nothing was selected). */
  lemma DownThenUp(selected: Option<nat>)
    ensures Replay(selected, [Down, Up]) == Some(selected.GetOr(0))
  {
    var afterDown := Moved(selected, Down);
    assert [Down, Up][1..] == [Up] && [Up][1..] == [];
    assert Replay(selected, [Down, Up]) == Replay(afterDown, [Up]);
    assert Replay(afterDown, [Up]) == Replay(Moved(afterDown, Up), []);
  }

  /** Up then Down comes back to a selected row other than 0; from row 0 it reaches row 1. */
  lemma UpThenDown(n: nat)
    ensures Replay(Some(n), [Up, Down]) == Some(if n == 0 then 1 else n)
  {
    var afterUp := Moved(Some(n), Up);
    assert [Up, Down][1..] == [Down] && [Down][1..] == [];
    assert Replay(Some(n), [Up, Down]) == Replay(afterUp, [Down]);
    assert Replay(afterUp, [Down]) == Replay(Moved(afterUp, Down), []);
  }

  /**
   Once any key has moved the cursor, a row stays selected; and each press moves
   it by at most one row.
   */
  lemma {:induction false} ReplayBounds(n: nat, codes: seq<KeyCode>)
    ensures Replay(Some(n), codes).Some?
    ensures n - |codes| <= Replay(Some(n), codes).value <= n + |codes|
    decreases codes
  {
    if codes != [] {
      var next := Moved(Some(n), codes[0]);
      ReplayBounds(next.value, codes[1..]);
    }
  }

  /** Keys other than Up and Down never change the selection, whatever it is. */
  lemma {:induction false} OtherKeysKeepSelection(selected: Option<nat>, codes: seq<KeyCode>)
    requires forall i :: 0 <= i < |codes| ==> codes[i] != Up && codes[i] != Down
    ensures Replay(selected, codes) == selected
  {
    if codes != [] {
      OtherKeysKeepSelection(selected, codes[1..]);
    }
  }

  /**
   The columns in order of index are the keys in order of first sight: the i-th
   column is the i-th distinct key met while reading the records in order.
   */
  lemma {:induction false} OrderedColumnsFollowFirstSight(records: seq<Record>)
    ensures WellIndexed(Build(records))
    ensures var ordered := TableViewConfig(Build(records)).OrderedColumns();
      && |ordered| == |FirstSeen(AllPairs(records))|
      && forall i :: 0 <= i < |ordered| ==> ordered[i].0 == FirstSeen(AllPairs(records))[i]
  {
    var cols, keys := Build(records), FirstSeen(AllPairs(records));
    BuildIsWellIndexed(records);
    ScanKeys(AllPairs(records));
    var ordered := TableViewConfig(cols).OrderedColumns();
    forall i | 0 <= i < |ordered| ensures ordered[i].0 == keys[i] {
      assert keys[i] in cols && cols[keys[i]].index == i;
      assert cols[ordered[i].0].index == i;
    }
  }

  /**
   The header has exactly one entry per column if and only if no key occurs
   twice among the members of the records; otherwise it is longer.
   */
  lemma {:induction false} HeaderAlignedIffDistinctKeys(records: seq<Record>)
    ensures |Build(records)| <= |KeysOf(AllPairs(records))|
    ensures |KeysOf(AllPairs(records))| == |Build(records)| <==> Distinct(KeysOf(AllPairs(records)))
  {
    var ps := AllPairs(records);
    ScanKeys(ps);
    FirstSeenIsAllKeysIffDistinct(ps);
  }

  /**
   The inner loop of update_config over the members of one object: a key seen for
   the first time gets the current number of columns as its index and width 0;
   then the column is widened to the value's rendered length and to the key's
   length. `cols` is the schema of the members `seen` so far.
   */
  method ScanMembers(cols: Config, ghost seen: seq<Member>, members: seq<Member>) returns (r: Config)
    requires cols == Scan(seen)
    ensures r == Scan(seen + members)
  {
    r := cols;
    assert seen + members[..0] == seen;
    for j := 0 to |members|
      invariant r == Scan(seen + members[..j])
    {
      r := AddMember(r, members[j]);
      ScanOneMore(seen, members, j);
    }
    assert members[..|members|] == members;
  }

  /**
   One pass of that loop: `entry(key).or_insert(..)` finds the key's column or
   adds one at the next index with width 0, and the entry is then widened to the
   value's rendered length and to the key's length.
   */
  method AddMember(cols: Config, member: Member) returns (r: Config)
    ensures r == Step(cols, member)
  {
    var Member(key, value) := member;
    var nextIndex := |cols|;
    var entry := if key in cols then cols[key] else ColumnConfig(0, nextIndex);
    var valueLen := ByteLen(Json.Render(value));
    if valueLen > entry.minWidth {
      entry := entry.(minWidth := valueLen);
    }
    var keyLen := ByteLen(key);
    if keyLen > entry.minWidth {
      entry := entry.(minWidth := keyLen);
    }
    r := cols[key := entry];
  }

  /** The header `render` builds: the keys of every object record, record after record, repetitions included. */
  method Header(records: seq<Record>) returns (header: seq<string>)
    ensures header == KeysOf(AllPairs(records))
  {
    header := [];
    for i := 0 to |records|
      invariant header == KeysOf(AllPairs(records[..i]))
    {
      ghost var before := AllPairs(records[..i]);
      assert records[..i + 1][..i] == records[..i];
      assert AllPairs(records[..i + 1]) == before + Members(records[i]);
      match AsObject(records[i]) {
        case None =>
          assert before + Members(records[i]) == before;
        case Some(members) =>
          assert before + members[..0] == before;
          for j := 0 to |members|
            invariant header == KeysOf(before + members[..j])
          {
            header := header + [members[j].key];
            KeysOfSnoc(before + members[..j], members[j]);
            assert before + members[..j + 1] == (before + members[..j]) + [members[j]];
          }
          assert members[..|members|] == members;
      }
    }
    assert records[..|records|] == records;
  }

  /** A table of records, with its memoised column configuration and its cursor. */
  class TableView {
    /** The records shown, in source order; the record source never changes them. */
    const records: seq<Record>
    /** The column configuration, absent until update_config first runs. */
    var config: Option<TableViewConfig>
    /** The selected row of the table state. */
    var selected: Option<nat>

    /** A stored configuration is the one the records determine. */
    ghost predicate Valid()
      reads this
    {
      config.Some? ==> config.value.columns == Build(records) && WellIndexed(config.value.columns)
    }

    /** `TableView::new`: no configuration yet, and row 3 selected. */
    constructor (records: seq<Record>)
      ensures Valid()
      ensures this.records == records && config == None && selected == Some(3)
    {
      this.records := records;
      config := None;
      selected := Some(3);
    }

    /**
     Computes the column configuration unless one is already stored, stores it and
     returns it. A stored configuration is returned unchanged, without a new scan.
     */
    method UpdateConfig() returns (c: TableViewConfig)
      requires Valid()
      modifies this
      ensures Valid()
      ensures config == Some(c) && c.columns == Build(records)
      ensures old(config).Some? ==> c == old(config.value)
      ensures selected == old(selected)
    {
      if config.Some? {
        c := config.value;
      } else {
        var cols: Config := map[];
        for i := 0 to |records|
          invariant cols == Build(records[..i])
          invariant selected == old(selected)
        {
          ghost var before := AllPairs(records[..i]);
          assert records[..i + 1][..i] == records[..i];
          assert AllPairs(records[..i + 1]) == before + Members(records[i]);
          match AsObject(records[i]) {
            case None =>
              assert before + Members(records[i]) == before;
            case Some(members) =>
              cols := ScanMembers(cols, before, members);
          }
        }
        assert records[..|records|] == records;
        BuildIsWellIndexed(records);
        c := TableViewConfig(cols);
        config := Some(c);
      }
    }

    /**
     The rows, the header and the widths that `render` hands to the table widget:
     one row per record (its own members, not aligned to the columns), a header of
     the keys of every object record one after the other (repetitions included),
     and the column widths.
     */
    method Render() returns (rows: seq<seq<string>>, header: seq<string>, widths: seq<u16>)
      requires Valid() && config.Some?
      ensures |rows| == |records|
      ensures forall i :: 0 <= i < |records| ==> IsRowOf(rows[i], records[i])
      ensures header == KeysOf(AllPairs(records))
      ensures |widths| == |config.value.columns|
      ensures forall i :: 0 <= i < |widths| ==>
        widths[i] as int == config.value.OrderedColumns()[i].1.minWidth % 0x1_0000
    {
      rows := [];
      for i := 0 to |records|
        invariant |rows| == i
        invariant forall n :: 0 <= n < i ==> IsRowOf(rows[n], records[n])
      {
        var row := ToRow(records[i], ObjSimple);
        rows := rows + [row];
      }
      header := Header(records);
      widths := config.value.Widths();
    }

    /** Moves the cursor: Down one row further, Up one row back (stopping at 0); other keys do nothing. */
    method HandleKeypress(key: KeyEvent)
      requires Valid()
      modifies this
      ensures Valid()
      ensures selected == Moved(old(selected), key.code)
      ensures config == old(config)
    {
      match key.code {
        case Down =>
          selected := Some(selected.GetOr(0) + 1);
        case Up =>
          var oldIndex := selected.GetOr(10);
          var newIndex := if oldIndex == 0 then 0 else oldIndex - 1;
          selected := Some(newIndex);
        case _ =>
      }
    }

    /** The selected row, or row 0 when no row is selected, is a row of the table. */
    ghost predicate CanSelect()
      reads this
    {
      selected.GetOr(0) < |records|
    }

    /**
     The record at the selected row, or at row 0 when no row is selected; 
     `selected_record` indexes the records with that row, and panics past the last one.
     */
    function SelectedRecord(): (r: Record)
      reads this
      requires CanSelect()
      ensures r in records
    {
      records[selected.GetOr(0)]
    }
  }

  /** Right after `new`, the selected record exists exactly when there are at least four records. */
  lemma StartSelectsFourthRecord(view: TableView)
    requires view.selected == Some(3)
    ensures view.CanSelect() <==> |view.records| >= 4
    ensures view.CanSelect() ==> view.SelectedRecord() == view.records[3]
  {
  }

  /**
   From the initial row 3, three or more presses of Up select row 0: the first
   record, which every non-empty table has.
   */
  lemma {:induction false} UpsFromStartSelectFirstRecord(view: TableView, k: nat)
    requires k >= 3 && |view.records| > 0
    requires view.selected == Replay(Some(3), Presses(Up, k))
    ensures view.CanSelect() && view.SelectedRecord() == view.records[0]
  {
    UpsSaturate(3, k);
  }

  /**
   Down never stops at the last record: from any selectable row, enough
   presses of Down select a row past the end, where `selected_record` panics.
   */
  lemma {:induction false} DownsLeaveTheTable(view: TableView, n: nat)
    requires view.selected == Replay(Some(n), Presses(Down, |view.records|))
    ensures !view.CanSelect()
  {
    DownsNeverClamp(n, |view.records|);
  }
}
