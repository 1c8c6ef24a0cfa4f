/**
 * `TableObject`: a table definition bound to the current list of values,
 * with the edited flag, the current file name, the creation time kept in
 * the "TimeSeconds" and "TimeSubSeconds" fields, the CRC of the payload and
 * the encode and decode of whole files.
 */
module TableObjects {
  import opened Common
  import opened Packing
  import opened Items
  import opened TableDefinitions

  const MicrosPerSecond: int := 1000000

  /** The instant `seconds` plus `micros` after the epoch 2000-01-01
      11:58:56.816, in microseconds after it: what `getTableTime` builds with
      `timedelta(seconds=..., microseconds=...)`. */
  function Join(seconds: int, micros: int): int
  {
    seconds * MicrosPerSecond + micros
  }

  /** `dt.days * 86400 + dt.seconds` and `dt.microseconds` of the timedelta
      `elapsed` microseconds long: whole seconds rounded down, and the
      microseconds left over. */
  function Split(elapsed: int): (r: (int, int))
    ensures 0 <= r.1 < MicrosPerSecond
    ensures Join(r.0, r.1) == elapsed
  {
    (elapsed / MicrosPerSecond, elapsed % MicrosPerSecond)
  }

  /** Splitting a time whose microseconds are in range gives its fields back. */
  lemma SplitJoin(seconds: int, micros: int)
    requires 0 <= micros < MicrosPerSecond
    ensures Split(Join(seconds, micros)) == (seconds, micros)
  {
    var e := Join(seconds, micros);
    var (s, us) := Split(e);
    assert (s - seconds) * MicrosPerSecond == micros - us;
  }

  /** `datetime + timedelta(seconds=s, microseconds=us)` for the two stored
      fields; a non-number raises TypeError, floats are not modelled. */
  function TimeOf(seconds: Value, micros: Value): (r: Result<Option<int>>)
    ensures r.Ok? <==> seconds.Int? && micros.Int?
    ensures r.Ok? ==> r.value == Some(Join(seconds.i, micros.i))
  {
    if seconds.Int? && micros.Int? then Ok(Some(Join(seconds.i, micros.i)))
    else if (seconds.Int? || seconds.Float?) && (micros.Int? || micros.Float?) then Err(NotModelled)
    else Err(TypeError)
  }

  /** The text of a `struct` code, as the `encoding` attribute holds it. */
  function FormatCode(f: Format): string
  {
    match f
    case UInt8 => "B"
    case Int8 => "b"
    case UInt16 => "H"
    case UInt32 => "I"
    case UInt64 => "Q"
    case Float32 => "f"
    case Float64 => "d"
    case Chars(n) => Text.DecimalText(n) + "s"
  }

  /** What `get` returns: a plain value, or a `datarange`. */
  datatype Cell = Scalar(v: Value) | RangeCell(r: Range)

  /** The names of the item methods, which `getattr` returns as bound methods. */
  const MethodNames: set<string> :=
    {"parse", "display", "cast", "bytesSize", "maxi", "mini", "encode", "decode"}

  /** Python's own attributes of every object, such as `__class__`. */
  predicate IsDunder(name: string)
  {
    |name| >= 2 && name[0] == '_' && name[1] == '_'
  }

  /** `getattr(item, name)` for the data attributes of an item; methods, the
      enumeration's reverse map and Python's own attributes are not modelled. */
  function Attribute(item: Item, name: string): (r: Result<Cell>)
    ensures r.Err? && name !in MethodNames && !(name == "reverse" && IsEnum(item.kind)) && !IsDunder(name) ==>
      r == Err(AttributeError)
    ensures IsDunder(name) ==> r == Err(NotModelled)
    ensures name == "datarange" ==> r == Ok(RangeCell(item.datarange))
    ensures name == "defaultvalue" ==> r == Ok(Scalar(item.defaultValue))
    ensures name == "datatype" ==> r == Ok(Scalar(Value.Text(item.dataType)))
    ensures name == "editable" ==> r == Ok(Scalar(Int(item.editable)))
  {
    if IsDunder(name) then Err(NotModelled)
    else
      match name
      case "name" => Ok(Scalar(Value.Text(item.name)))
      case "datatype" => Ok(Scalar(Value.Text(item.dataType)))
      case "defaultvalue" => Ok(Scalar(item.defaultValue))
      case "description" => Ok(Scalar(Value.Text(item.description)))
      case "length" => Ok(Scalar(Int(item.length)))
      case "datarange" => Ok(RangeCell(item.datarange))
      case "editable" => Ok(Scalar(Int(item.editable)))
      case "displaytype" => Ok(Scalar(Value.Text(item.displayType)))
      case "encoding" => Ok(Scalar(Value.Text(FormatCode(Encoding(item)))))
      case _ =>
        if name in MethodNames || (name == "reverse" && IsEnum(item.kind)) then Err(NotModelled)
        else Err(AttributeError)
  }

  /** The bytes `calculateCRC` checks: everything after the 116-byte header,
      or nothing when the record is shorter. */
  function Payload(encoded: seq<byte>): (p: seq<byte>)
    ensures |encoded| >= HeaderSize ==> encoded == encoded[..HeaderSize] + p
    ensures |encoded| < HeaderSize ==> p == []
  {
    if |encoded| >= HeaderSize then encoded[HeaderSize..] else []
  }

  /** Whether `setCurrentTime` raises IndexError: both time fields are found
      at non-zero indices and one of them is past the `n` values. */
  predicate TimeStampFails(items: seq<Item>, n: nat)
  {
    var i, j := FindIndex(items, "TimeSeconds"), FindIndex(items, "TimeSubSeconds");
    Truthy(i) && Truthy(j) && (i.value >= n || j.value >= n)
  }

  /** The values `setCurrentTime` leaves: the seconds and then the
      microseconds written into their fields, as far as it gets. */
  function StampedValues(items: seq<Item>, before: seq<Value>, elapsed: int): (after: seq<Value>)
    ensures |after| == |before|
  {
    var i, j := FindIndex(items, "TimeSeconds"), FindIndex(items, "TimeSubSeconds");
    if !(Truthy(i) && Truthy(j)) || i.value >= |before| then before
    else if j.value >= |before| then before[i.value := Int(Split(elapsed).0)]
    else before[i.value := Int(Split(elapsed).0)][j.value := Int(Split(elapsed).1)]
  }

  /** A table of values under a definition. */
  class TableObject {
    var values: seq<Value>
    var tabledef: TableDefinition
    var isEdited: bool
    var currentFilename: Option<string>

    /** `TableObject(tabledef)`: an empty definition, replaced by the given
        one whose defaults become the values. */
    constructor (tabledef: Option<TableDefinition>)
      ensures tabledef.Some? ==> this.tabledef == tabledef.value && values == DefaultValues(tabledef.value.items)
      ensures tabledef.None? ==> fresh(this.tabledef) && this.tabledef.items == [] && values == []
      ensures Length() == |this.tabledef.items|
      ensures !isEdited && currentFilename == None
    {
      values := [];
      this.tabledef := new TableDefinition();
      isEdited := false;
      currentFilename := None;
      new;
      if tabledef.Some? {
        LoadTableDefinition(tabledef.value);
      }
    }

    /** `loadTableDefinition`: the values are reset to the new defaults. */
    method LoadTableDefinition(tabledef: TableDefinition)
      modifies this
      ensures this.tabledef == tabledef && values == DefaultValues(tabledef.items)
      ensures Length() == |tabledef.items|
      ensures isEdited == old(isEdited) && currentFilename == old(currentFilename)
    {
      this.tabledef := tabledef;
      values := DefaultValues(tabledef.items);
    }

    /** `len(table)`: the number of values. */
    function Length(): (n: nat)
      reads this
      ensures n == |values|
    {
      |values|
    }

    /** `getTableTime()`: the stored time in microseconds after the epoch,
        or None unless both time fields are found at non-zero indices. */
    function TableTime(): (r: Result<Option<int>>)
      reads this, tabledef
      ensures var i, j := FindIndex(tabledef.items, "TimeSeconds"), FindIndex(tabledef.items, "TimeSubSeconds");
        && (r == Ok(None) <==> !(Truthy(i) && Truthy(j)))
        && (Truthy(i) && Truthy(j) && i.value < |values| && j.value < |values|
            && values[i.value].Int? && values[j.value].Int?
            ==> r == Ok(Some(Join(values[i.value].i, values[j.value].i))))
        && (Truthy(i) && Truthy(j) && (i.value >= |values| || j.value >= |values|) ==> r == Err(IndexError))
        && (Truthy(i) && Truthy(j) && i.value < |values| && j.value < |values|
            ==> r == TimeOf(values[i.value], values[j.value]))
    {
      var i, j := FindIndex(tabledef.items, "TimeSeconds"), FindIndex(tabledef.items, "TimeSubSeconds");
      if Truthy(i) && Truthy(j) then
        if i.value >= |values| || j.value >= |values| then Err(IndexError)
        else TimeOf(values[i.value], values[j.value])
      else Ok(None)
    }

    /** `setCurrentTime()`, `elapsed` being the microseconds from the epoch
        to now. Whole seconds go to "TimeSeconds" and the remaining
        microseconds to "TimeSubSeconds", one after the other. */
    method SetCurrentTime(elapsed: int) returns (r: Result<()>)
      modifies this
      ensures tabledef == old(tabledef) && isEdited == old(isEdited) && currentFilename == old(currentFilename)
      ensures var i, j := FindIndex(tabledef.items, "TimeSeconds"), FindIndex(tabledef.items, "TimeSubSeconds");
        && (!(Truthy(i) && Truthy(j)) ==> values == old(values) && r == Ok(()))
        && (Truthy(i) && Truthy(j) && i.value < |old(values)| && j.value < |old(values)| ==>
              r == Ok(())
              && values == old(values)[i.value := Int(Split(elapsed).0)][j.value := Int(Split(elapsed).1)]
              && TableTime() == Ok(Some(elapsed)))
        && (Truthy(i) && Truthy(j) && i.value >= |old(values)| ==> values == old(values) && r == Err(IndexError))
        && (Truthy(i) && Truthy(j) && i.value < |old(values)| <= j.value ==>
              values == old(values)[i.value := Int(Split(elapsed).0)] && r == Err(IndexError))
      ensures values == StampedValues(tabledef.items, old(values), elapsed)
      ensures r.Err? <==> TimeStampFails(tabledef.items, |old(values)|)
    {
      var i := FindIndex(tabledef.items, "TimeSeconds");
      var j := FindIndex(tabledef.items, "TimeSubSeconds");
      if Truthy(i) && Truthy(j) {
        var (seconds, micros) := Split(elapsed);
        if i.value >= |values| {
          return Err(IndexError);
        }
        values := values[i.value := Int(seconds)];
        if j.value >= |values| {
          return Err(IndexError);
        }
        values := values[j.value := Int(micros)];
      }
      r := Ok(());
    }

    /** `get(row, colname)`: the displayed value for "value", otherwise the
        item attribute of that name. */
    function Get(row: nat, column: string): (r: Result<Cell>)
      reads this, tabledef
      ensures row >= |tabledef.items| ==> r == Err(IndexError)
      ensures row < |tabledef.items| && column == "value" && row >= |values| ==> r == Err(IndexError)
      ensures row < |tabledef.items| && column == "value" && row < |values| ==>
        (r.Ok? <==> Display(tabledef.items[row], values[row]).Ok?)
        && (r.Ok? ==> r.value == Scalar(Display(tabledef.items[row], values[row]).value))
      ensures row < |tabledef.items| && column != "value" ==> r == Attribute(tabledef.items[row], column)
    {
      if row >= |tabledef.items| then Err(IndexError)
      else
        var item := tabledef.items[row];
        if column == "value" then
          if row >= |values| then Err(IndexError)
          else
            match Display(item, values[row])
            case Ok(v) => Ok(Scalar(v))
            case Err(e) => Err(e)
        else Attribute(item, column)
    }

    /** `set(row, valuestr)`: marks the table edited before anything can
        fail, then stores the item's cast of the value; returns nothing. */
    method Set(row: nat, v: Value) returns (r: Result<()>)
      modifies this
      ensures isEdited
      ensures tabledef == old(tabledef) && currentFilename == old(currentFilename)
      ensures row >= |tabledef.items| ==> r == Err(IndexError) && values == old(values)
      ensures row < |tabledef.items| && Cast(tabledef.items[row], v).Err? ==>
        r == Err(Cast(tabledef.items[row], v).error) && values == old(values)
      ensures row < |tabledef.items| && Cast(tabledef.items[row], v).Ok? ==>
        if row < |old(values)| then r == Ok(()) && values == old(values)[row := Cast(tabledef.items[row], v).value]
        else r == Err(IndexError) && values == old(values)
    {
      isEdited := true;
      if row >= |tabledef.items| {
        return Err(IndexError);
      }
      var item := tabledef.items[row];
      var cast := Cast(item, v);
      if cast.Err? {
        return Err(cast.error);
      }
      if row >= |values| {
        return Err(IndexError);
      }
      values := values[row := cast.value];
      r := Ok(());
    }

    /** `calculateCRC()`, `crc16arc` standing for the checksum function:
        the checksum of the encoded values after the header. */
    function Crc(crc16arc: seq<byte> -> int, bigEndian: bool): (r: Result<int>)
      reads this, tabledef
      ensures r.Ok? <==> EncodeItems(tabledef.items, values, bigEndian).Ok?
      ensures r.Ok? ==> r.value == crc16arc(Payload(EncodeItems(tabledef.items, values, bigEndian).value))
    {
      match EncodeItems(tabledef.items, values, bigEndian)
      case Ok(encoded) => Ok(crc16arc(Payload(encoded)))
      case Err(e) => Err(e)
    }

    /** `encode(filename)`: refreshes the time fields, truncates the file,
        writes the encoded values and records the file name. `written` is
        the file's contents afterwards, None when it was not opened. */
    method Encode(filename: string, elapsed: int, bigEndian: bool) returns (written: Option<seq<byte>>, r: Result<()>)
      modifies this
      ensures tabledef == old(tabledef) && isEdited == old(isEdited)
      ensures values == StampedValues(tabledef.items, old(values), elapsed)
      ensures TimeStampFails(tabledef.items, |old(values)|) ==>
        written == None && r == Err(IndexError) && currentFilename == old(currentFilename)
      ensures !TimeStampFails(tabledef.items, |old(values)|) ==>
        && written.Some?
        && (r.Ok? <==> EncodeItems(tabledef.items, values, bigEndian).Ok?)
        && (r.Err? ==> written == Some([]) && r == Err(EncodeItems(tabledef.items, values, bigEndian).error)
                       && currentFilename == old(currentFilename))
      ensures r.Ok? ==> (
        && written == Some(EncodeItems(tabledef.items, values, bigEndian).value)
        && currentFilename == Some(filename)
        && (var i, j := FindIndex(tabledef.items, "TimeSeconds"), FindIndex(tabledef.items, "TimeSubSeconds");
            Truthy(i) && Truthy(j) ==> TableTime() == Ok(Some(elapsed))))
    {
      var timed := SetCurrentTime(elapsed);
      if timed.Err? {
        return None, Err(timed.error);
      }
      written := Some([]);
      var encoded := tabledef.Encode(values, bigEndian);
      if encoded.Err? {
        return written, Err(encoded.error);
      }
      written := Some(encoded.value);
      currentFilename := Some(filename);
      r := Ok(());
    }

    /** `decodeTableName(filename)` of the file's `contents`: records the
        file name and reads the header; the values are untouched. */
    method DecodeTableName(filename: string, contents: seq<byte>, bigEndian: bool) returns (r: Result<Option<string>>)
      modifies this
      ensures currentFilename == Some(filename)
      ensures values == old(values) && tabledef == old(tabledef) && isEdited == old(isEdited)
      ensures r == TableDefinitions.DecodeTableName(contents, bigEndian)
    {
      currentFilename := Some(filename);
      r := TableDefinitions.DecodeTableName(contents, bigEndian);
    }

    /** `decode(filename)` of the file's `contents`: records the file name,
        then replaces the values with the decoded record. */
    method Decode(filename: string, contents: seq<byte>, bigEndian: bool) returns (r: Result<()>)
      modifies this
      ensures currentFilename == Some(filename)
      ensures tabledef == old(tabledef) && isEdited == old(isEdited)
      ensures r.Ok? <==> DecodeItems(tabledef.items, contents, bigEndian).Ok?
      ensures r.Ok? ==> values == DecodeItems(tabledef.items, contents, bigEndian).value
      ensures r.Err? ==> values == old(values) && r.error == DecodeItems(tabledef.items, contents, bigEndian).error
      ensures |contents| < BytesSize(tabledef.items) ==> r == Err(StructError)
    {
      currentFilename := Some(filename);
      var decoded := tabledef.Decode(contents, bigEndian);
      if decoded.Err? {
        return Err(decoded.error);
      }
      values := decoded.value;
      r := Ok(());
    }
  }

  /** The checksum ignores the header: two records that differ only in
      their first 116 bytes have the same CRC. */
  lemma CrcIgnoresHeader(crc16arc: seq<byte> -> int, a: seq<byte>, b: seq<byte>)
    requires |a| >= HeaderSize && |b| >= HeaderSize && a[HeaderSize..] == b[HeaderSize..]
    ensures crc16arc(Payload(a)) == crc16arc(Payload(b))
  {
  }
}
