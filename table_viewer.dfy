/**
 * The plain logic of the table viewer: the integer validator of the cell
 * editor, the undo command of one cell edit, and the table model's
 * `setData` and `encode`.
 */
module TableViewer {
  import opened Common
  import opened Text
  import opened Packing
  import opened Items
  import opened TableDefinitions
  import opened TableObjects

  /** `QValidator.State`. */
  datatype State = Invalid | Intermediate | Acceptable

  /** `CustomIntValidator(mini, maxi)`. */
  datatype IntValidator = IntValidator(mini: int, maxi: int)
  {
    /** `validate(input, pos)`: nothing typed yet, or a hexadecimal prefix
        still being typed, is Intermediate; any longer hexadecimal text is
        Acceptable unchecked; other text is Acceptable exactly when it is an
        integer within the bounds. Input and position come back unchanged. */
    function Validate(input: string, pos: int): (r: (State, string, int))
      ensures r.1 == input && r.2 == pos
      ensures pos == 0 ==> r.0 == Intermediate
      ensures pos != 0 && HasHexPrefix(input) ==> r.0 == (if pos <= 1 then Intermediate else Acceptable)
      ensures pos != 0 && !HasHexPrefix(input) ==> r.0 != Intermediate
      ensures pos != 0 && !HasHexPrefix(input) ==>
        (r.0 == Acceptable <==> ParseInt(input).Ok? && mini <= ParseInt(input).value <= maxi)
    {
      if pos == 0 then (Intermediate, input, pos)
      else if HasHexPrefix(input) then
        if pos <= 1 then (Intermediate, input, pos) else (Acceptable, input, pos)
      else
        match ParseInt(input)
        case Err(_) => (Invalid, input, pos)
        case Ok(value) =>
          if mini <= value && value <= maxi then (Acceptable, input, pos) else (Invalid, input, pos)
    }
  }

  /** `t in s` for text. */
  predicate Contains(s: string, t: string)
  {
    exists i :: 0 <= i <= |s| && t <= s[i..]
  }

  lemma NotContains(s: string, t: string)
    requires |t| >= 2
    requires forall i :: 0 <= i < |s| - 1 ==> !(s[i] == t[0] && s[i + 1] == t[1])
    ensures !Contains(s, t)
  {
    forall i | 0 <= i <= |s| ensures !(t <= s[i..]) {
      if i + 2 <= |s| {
        assert s[i..][0] == s[i] && s[i..][1] == s[i + 1];
      }
    }
  }

  /** The delegate's choice of editor: an item whose datatype mentions "enum"
      gets a combo box, one that mentions "uint" a line edit with an integer
      validator, any other a plain line edit. */
  datatype Editor = ComboBox | ValidatedLine | PlainLine

  function EditorFor(dataType: string): Editor
  {
    if Contains(dataType, "enum") then ComboBox
    else if Contains(dataType, "uint") then ValidatedLine
    else PlainLine
  }

  /** Exactly the unsigned integer classes get the validator; the signed
      8-bit class gets a plain line edit. */
  lemma ValidatedKinds(k: Kind)
    ensures EditorFor(DatatypeName(k)) == ValidatedLine <==> IsInteger(k) && k != Int8Item
    ensures IsEnum(k) ==> EditorFor(DatatypeName(k)) == ComboBox
  {
    var s := DatatypeName(k);
    if IsEnum(k) {
      assert "enum" <= s[0..];
    } else {
      NotContains(s, "enum");
      if IsInteger(k) && k != Int8Item {
        assert "uint" <= s[0..];
      } else {
        NotContains(s, "uint");
      }
    }
  }

  /** The validator an unsigned item's editor gets: its `datarange`, which
      parsing set to `[mini(), maxi()]`. */
  function ValidatorFor(item: Item): (v: IntValidator)
    requires IsInteger(item.kind) && item.kind != Int8Item
    ensures Mini(item) == Int(v.mini) && Maxi(item) == Int(v.maxi) && v.mini == 0
  {
    UnsignedBounds(item);
    IntValidator(Mini(item).i, Maxi(item).i)
  }

  /** Decimal text the item's validator accepts casts to a value that the
      item then encodes: the validator and `cast` agree on decimal text. */
  lemma AcceptedDecimalEncodes(item: Item, input: string, pos: int, bigEndian: bool)
    requires IsInteger(item.kind) && item.kind != Int8Item && pos != 0 && !HasHexPrefix(input)
    requires ValidatorFor(item).Validate(input, pos).0 == Acceptable
    ensures Cast(item, Value.Text(input)).Ok?
    ensures EncodeValue(item, Cast(item, Value.Text(input)).value, bigEndian).Ok?
  {
    var n := ParseInt(input).value;
    assert input != "" by {
      assert ParseInt(input).Ok?;
    }
    assert Cast(item, Value.Text(input)) == Ok(Int(n));
    IntegerEncodeRange(item, n, bigEndian);
  }

  /** Hexadecimal text is accepted without a range check: "0x100" passes the
      validator of a one-byte unsigned item, whose encode then raises
      struct.error. */
  lemma AcceptedHexMayNotEncode(item: Item, bigEndian: bool)
    requires item.kind == Uint8Item
    ensures ValidatorFor(item).Validate("0x100", 5).0 == Acceptable
    ensures Cast(item, Value.Text("0x100")) == Ok(Int(256))
    ensures EncodeValue(item, Int(256), bigEndian) == Err(StructError)
  {
    UnsignedBounds(item);
    var s := "0x100";
    assert Lower(s)[..2] == "0x";
    assert s[2..] == "100";
    assert AllDigits("100", 16);
    assert DigitsValue("100", 16) == 256 by {
      assert "100"[..2] == "10" && "10"[..1] == "1" && "1"[..0] == "";
    }
    IntegerEncodeRange(item, 256, bigEndian);
  }

  /** `CellEdit`: an undo command for one cell, holding the value before
      and after the edit. */
  class CellEdit {
    const row: nat
    const value: Value
    const prev: Value
    const table: TableObject

    /** Captures the cell's current value as the value after the edit. */
    constructor (row: nat, prev: Value, table: TableObject)
      requires row < |table.values|
      ensures this.row == row && this.prev == prev && this.table == table
      ensures value == table.values[row]
    {
      this.row := row;
      this.prev := prev;
      this.table := table;
      value := table.values[row];
    }

    /** `undo()`: the cell gets its value from before the edit back. */
    method Undo() returns (r: Result<()>)
      modifies table
      ensures row < |old(table.values)| ==> r == Ok(()) && table.values == old(table.values)[row := prev]
      ensures row >= |old(table.values)| ==> r == Err(IndexError) && table.values == old(table.values)
      ensures table.tabledef == old(table.tabledef) && table.isEdited == old(table.isEdited)
      ensures table.currentFilename == old(table.currentFilename)
    {
      if row >= |table.values| {
        return Err(IndexError);
      }
      table.values := table.values[row := prev];
      r := Ok(());
    }

    /** `redo()`: the cell gets its value from after the edit back. */
    method Redo() returns (r: Result<()>)
      modifies table
      ensures row < |old(table.values)| ==> r == Ok(()) && table.values == old(table.values)[row := value]
      ensures row >= |old(table.values)| ==> r == Err(IndexError) && table.values == old(table.values)
      ensures table.tabledef == old(table.tabledef) && table.isEdited == old(table.isEdited)
      ensures table.currentFilename == old(table.currentFilename)
    {
      if row >= |table.values| {
        return Err(IndexError);
      }
      table.values := table.values[row := value];
      r := Ok(());
    }
  }

  /** `CustomTableModel`: the viewer's model over one table, with its undo stack. */
  class TableModel {
    const table: TableObject
    var stack: seq<CellEdit>

    constructor (table: TableObject)
      ensures this.table == table && stack == []
    {
      this.table := table;
      stack := [];
    }

    /** `setData(index, value, role)` as written: `set` returns None, so no
        edit is ever pushed and the answer is never true, although the cell
        has been set. */
    method SetData(valid: bool, row: nat, v: Value, editRole: bool) returns (r: Result<bool>)
      modifies table
      ensures r != Ok(true)
      ensures stack == old(stack)
      ensures table.tabledef == old(table.tabledef) && table.currentFilename == old(table.currentFilename)
      ensures !valid || !editRole ==>
        r == Ok(false) && table.values == old(table.values) && table.isEdited == old(table.isEdited)
      ensures valid && editRole && row >= |old(table.values)| ==>
        r == Err(IndexError) && table.values == old(table.values) && table.isEdited == old(table.isEdited)
      ensures valid && editRole && row < |old(table.values)| ==> table.isEdited
      ensures valid && editRole && row < |old(table.values)| && row >= |table.tabledef.items| ==>
        r == Err(IndexError) && table.values == old(table.values)
      ensures valid && editRole && row < |old(table.values)| && row < |table.tabledef.items| ==>
        var cast := Cast(table.tabledef.items[row], v);
        && (cast.Err? ==> r == Err(cast.error) && table.values == old(table.values))
        && (cast.Ok? ==> r == Ok(false) && table.values == old(table.values)[row := cast.value])
    {
      if !valid || !editRole {
        return Ok(false);
      }
      if row >= |table.values| {
        return Err(IndexError);
      }
      var prev := table.values[row];
      var stored := table.Set(row, v);
      if stored.Err? {
        return Err(stored.error);
      }
      // `set` returned None, which is false: nothing is pushed
      r := Ok(false);
    }

    /** `setData` as evidently intended: a successful `set` pushes an edit
        whose undo restores the previous value, and the answer is true. */
    method SetDataPushing(valid: bool, row: nat, v: Value, editRole: bool) returns (r: Result<bool>)
      modifies this, table
      ensures table.tabledef == old(table.tabledef) && table.currentFilename == old(table.currentFilename)
      ensures !valid || !editRole ==>
        r == Ok(false) && table.values == old(table.values) && table.isEdited == old(table.isEdited)
      ensures valid && editRole && row >= |old(table.values)| ==>
        r == Err(IndexError) && table.values == old(table.values) && table.isEdited == old(table.isEdited)
      ensures valid && editRole && row < |old(table.values)| ==> table.isEdited
      ensures valid && editRole && row < |old(table.values)| && row >= |table.tabledef.items| ==>
        r == Err(IndexError) && table.values == old(table.values)
      ensures valid && editRole && row < |old(table.values)| && row < |table.tabledef.items| ==>
        var cast := Cast(table.tabledef.items[row], v);
        && (cast.Err? ==> r == Err(cast.error) && table.values == old(table.values))
        && (cast.Ok? ==> r == Ok(true) && table.values == old(table.values)[row := cast.value])
      ensures r == Ok(true) ==>
        && |stack| == |old(stack)| + 1 && stack[..|old(stack)|] == old(stack)
        && stack[|old(stack)|].row == row && stack[|old(stack)|].table == table
        && stack[|old(stack)|].prev == old(table.values)[row]
        && stack[|old(stack)|].value == table.values[row]
        && table.values[row := stack[|old(stack)|].prev] == old(table.values)
      ensures r != Ok(true) ==> stack == old(stack)
    {
      if !valid || !editRole {
        return Ok(false);
      }
      if row >= |table.values| {
        return Err(IndexError);
      }
      var prev := table.values[row];
      var stored := table.Set(row, v);
      if stored.Err? {
        return Err(stored.error);
      }
      var edit := new CellEdit(row, prev, table);
      stack := stack + [edit];
      r := Ok(true);
    }

    /** `encode(filename, offset, numbytes)` as written: the table's
        `encode` takes a file name and a byte order only, so the call
        raises TypeError and nothing changes. */
    method Encode(filename: string, offset: int, numbytes: int) returns (r: Result<()>)
      ensures r == Err(TypeError)
    {
      r := Err(TypeError);
    }

    /** `encode` as evidently intended: the table is saved and is no longer
        marked as edited. */
    method EncodeFile(filename: string, elapsed: int, bigEndian: bool) returns (written: Option<seq<byte>>, r: Result<()>)
      modifies table
      ensures table.tabledef == old(table.tabledef)
      ensures table.values == StampedValues(table.tabledef.items, old(table.values), elapsed)
      ensures r.Ok? <==>
        !TimeStampFails(table.tabledef.items, |old(table.values)|)
        && EncodeItems(table.tabledef.items, table.values, bigEndian).Ok?
      ensures r.Ok? ==> (
        && written == Some(EncodeItems(table.tabledef.items, table.values, bigEndian).value)
        && table.currentFilename == Some(filename)
        && !table.isEdited)
      ensures r.Err? ==> table.isEdited == old(table.isEdited) && table.currentFilename == old(table.currentFilename)
      ensures TimeStampFails(table.tabledef.items, |old(table.values)|) ==> written == None && r == Err(IndexError)
      ensures !TimeStampFails(table.tabledef.items, |old(table.values)|) && r.Err? ==>
        written == Some([]) && r == Err(EncodeItems(table.tabledef.items, table.values, bigEndian).error)
    {
      written, r := table.Encode(filename, elapsed, bigEndian);
      if r.Ok? {
        table.isEdited := false;
      }
    }
  }
}
