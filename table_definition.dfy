/**
 * `TableDefinition`: an ordered list of items loaded from schema records,
 * its total size, lookup by name, default values, whole-record encode and
 * decode under either byte order, and the table name read from the fixed
 * 116-byte file header.
 */
module TableDefinitions {
  import opened Common
  import opened Text
  import opened Packing
  import opened Items

  /** `HEADER_ENCODING = "8I32s3I40s"`. */
  const HeaderFormats: seq<Format> := [
    UInt32, UInt32, UInt32, UInt32, UInt32, UInt32, UInt32, UInt32,
    Chars(32), UInt32, UInt32, UInt32, Chars(40)]

  /** `struct.calcsize(HEADER_ENCODING)`. */
  const HeaderSize: nat := 116

  /** The header is 116 bytes and its thirteenth element, the table name, is
      its last 40 bytes. */
  lemma HeaderLayout()
    ensures TotalSize(HeaderFormats) == HeaderSize
    ensures |HeaderFormats| == 13 && HeaderFormats[12] == Chars(40)
    ensures Offset(HeaderFormats, 12) == 76
  {
    var one: seq<Format> := [UInt32];
    assert TotalSize(one) == 4 by { assert one[..0] == []; }
    assert TotalSize([Chars(32)]) == 32 by { assert [Chars(32)][..0] == []; }
    assert TotalSize([Chars(40)]) == 40 by { assert [Chars(40)][..0] == []; }
    TotalSizeAppend(one, one);
    var two := one + one;
    TotalSizeAppend(two, two);
    var four := two + two;
    TotalSizeAppend(four, four);
    var eight := four + four;
    TotalSizeAppend(two, one);
    var three := two + one;
    TotalSizeAppend(eight, [Chars(32)]);
    TotalSizeAppend(eight + [Chars(32)], three);
    var front := eight + [Chars(32)] + three;
    TotalSizeAppend(front, [Chars(40)]);
    assert HeaderFormats[..12] == front;
    assert HeaderFormats == front + [Chars(40)];
  }

  /** The formats of the items, in order. */
  function Formats(items: seq<Item>): (fs: seq<Format>)
    ensures |fs| == |items| && forall k :: 0 <= k < |items| ==> fs[k] == Encoding(items[k])
  {
    seq(|items|, k requires 0 <= k < |items| => Encoding(items[k]))
  }

  /** `bytesSize()`: the sum of the items' sizes. */
  function BytesSize(items: seq<Item>): (r: nat)
    ensures forall k :: 0 <= k < |items| ==> ItemSize(items[k]) <= r
  {
    if items == [] then 0
    else
      var front := items[..|items| - 1];
      assert forall k :: 0 <= k < |front| ==> front[k] == items[k];
      BytesSize(front) + ItemSize(items[|items| - 1])
  }

  /** The sum of the item sizes is `struct.calcsize` of the concatenated
      format, which `decode` unpacks in one call. */
  lemma {:induction false} BytesSizeIsFormatSize(items: seq<Item>)
    ensures BytesSize(items) == TotalSize(Formats(items))
  {
    if items != [] {
      var front := items[..|items| - 1];
      assert Formats(items)[..|items| - 1] == Formats(front);
      BytesSizeIsFormatSize(front);
    }
  }

  /** The size depends on nothing but the classes and lengths of the items. */
  lemma {:induction false} BytesSizeOfSameShape(a: seq<Item>, b: seq<Item>)
    requires |a| == |b|
    requires forall k :: 0 <= k < |a| ==> Encoding(a[k]) == Encoding(b[k])
    ensures BytesSize(a) == BytesSize(b)
  {
    if a != [] {
      BytesSizeOfSameShape(a[..|a| - 1], b[..|b| - 1]);
    }
  }

  /** `findIndex(name)`: the first item with exactly this name, or None. */
  function FindIndex(items: seq<Item>, name: string): (r: Option<nat>)
    ensures r.Some? ==> r.value < |items| && items[r.value].name == name
    ensures r.Some? ==> forall k :: 0 <= k < r.value ==> items[k].name != name
    ensures r.None? ==> forall k :: 0 <= k < |items| ==> items[k].name != name
  {
    if items == [] then None
    else if items[0].name == name then Some(0)
    else
      match FindIndex(items[1..], name)
      case None => None
      case Some(k) => Some(k + 1)
  }

  /** Changing default values keeps every index found by name. */
  lemma FindIndexIgnoresDefaults(items: seq<Item>, k: nat, d: Value, name: string)
    requires k < |items|
    ensures FindIndex(items[k := items[k].(defaultValue := d)], name) == FindIndex(items, name)
  {
    var after := items[k := items[k].(defaultValue := d)];
    assert forall j :: 0 <= j < |items| ==> after[j].name == items[j].name;
    var a, b := FindIndex(after, name), FindIndex(items, name);
    if a.Some? && b.Some? {
      assert !(a.value < b.value) && !(b.value < a.value);
    }
  }

  /** `getdefaultvalues()`. */
  function DefaultValues(items: seq<Item>): (vs: seq<Value>)
    ensures |vs| == |items| && forall k :: 0 <= k < |items| ==> vs[k] == items[k].defaultValue
  {
    seq(|items|, k requires 0 <= k < |items| => items[k].defaultValue)
  }

  /** `getTableName()`: the default of the item named "TableName";
      `items[None]` raises TypeError. */
  function TableName(items: seq<Item>): (r: Result<Value>)
    ensures r.Ok? <==> exists k :: 0 <= k < |items| && items[k].name == "TableName"
    ensures r.Ok? ==> exists k :: 0 <= k < |items| && items[k].name == "TableName" && r.value == items[k].defaultValue
    ensures r.Err? ==> r == Err(TypeError)
  {
    match FindIndex(items, "TableName")
    case None => Err(TypeError)
    case Some(k) => Ok(items[k].defaultValue)
  }

  /** Encoding item by item of equally long lists: the concatenation, or the
      first item's exception. */
  function EncodePairs(items: seq<Item>, values: seq<Value>, bigEndian: bool): (r: Result<seq<byte>>)
    requires |items| == |values|
    ensures r.Ok? ==> |r.value| == BytesSize(items)
  {
    if items == [] then Ok([])
    else
      var n := |items| - 1;
      match EncodePairs(items[..n], values[..n], bigEndian)
      case Err(e) => Err(e)
      case Ok(front) =>
        match EncodeValue(items[n], values[n], bigEndian)
        case Err(e) => Err(e)
        case Ok(last) => Ok(front + last)
  }

  /** Every value encodes on its own with its item. */
  predicate AllEncode(items: seq<Item>, values: seq<Value>, bigEndian: bool)
    requires |items| == |values|
  {
    forall k :: 0 <= k < |items| ==> EncodeValue(items[k], values[k], bigEndian).Ok?
  }

  lemma AllEncodeSnoc(items: seq<Item>, values: seq<Value>, bigEndian: bool)
    requires |items| == |values| && items != []
    ensures var n := |items| - 1;
      AllEncode(items, values, bigEndian)
      <==> AllEncode(items[..n], values[..n], bigEndian) && EncodeValue(items[n], values[n], bigEndian).Ok?
  {
    var n := |items| - 1;
    assert forall k :: 0 <= k < n ==> items[..n][k] == items[k] && values[..n][k] == values[k];
  }

  /** Item-by-item encoding succeeds exactly when every value encodes. */
  lemma {:induction false} EncodePairsOk(items: seq<Item>, values: seq<Value>, bigEndian: bool)
    requires |items| == |values|
    ensures EncodePairs(items, values, bigEndian).Ok? <==> AllEncode(items, values, bigEndian)
  {
    if items != [] {
      var n := |items| - 1;
      EncodePairsOk(items[..n], values[..n], bigEndian);
      AllEncodeSnoc(items, values, bigEndian);
      EncodePairsStep(items, values, n, bigEndian);
      assert items[..n + 1] == items && values[..n + 1] == values;
    }
  }

  /** One more item: its bytes follow, or the first exception stays. */
  lemma EncodePairsStep(items: seq<Item>, values: seq<Value>, k: nat, bigEndian: bool)
    requires k < |items| == |values|
    ensures EncodePairs(items[..k + 1], values[..k + 1], bigEndian)
         == match EncodePairs(items[..k], values[..k], bigEndian)
            case Err(e) => Err(e)
            case Ok(front) =>
              match EncodeValue(items[k], values[k], bigEndian)
              case Err(e) => Err(e)
              case Ok(last) => Ok(front + last)
  {
    assert items[..k + 1][..k] == items[..k] && values[..k + 1][..k] == values[..k];
  }

  /** Once an item fails to encode, `encode` raises that exception. */
  lemma {:induction false} EncodePairsStops(items: seq<Item>, values: seq<Value>, k: nat, bigEndian: bool)
    requires |items| == |values| && k <= |items|
    requires EncodePairs(items[..k], values[..k], bigEndian).Err?
    ensures EncodePairs(items, values, bigEndian) == EncodePairs(items[..k], values[..k], bigEndian)
    decreases |items| - k
  {
    if k < |items| {
      EncodePairsStep(items, values, k, bigEndian);
      EncodePairsStops(items, values, k + 1, bigEndian);
    } else {
      assert items[..k] == items && values[..k] == values;
    }
  }

  /** `encode(values)`: `zip` pairs items with values, so the shorter list
      decides how many items are encoded. */
  function EncodeItems(items: seq<Item>, values: seq<Value>, bigEndian: bool): (r: Result<seq<byte>>)
    ensures r.Ok? && |values| == |items| ==> |r.value| == BytesSize(items)
  {
    var m := if |items| <= |values| then |items| else |values|;
    assert |values| == |items| ==> items[..m] == items && values[..m] == values;
    EncodePairs(items[..m], values[..m], bigEndian)
  }

  /** `item.decode` applied where the item's datatype is "string". */
  function DecodeField(item: Item, raw: Value): (r: Result<Value>)
    ensures item.dataType != "string" || !raw.Bytes? ==> r == Ok(raw)
    ensures item.dataType == "string" && item.kind == StringItem && raw.Bytes? && r.Ok? ==>
      r.value.Text? && '\0' !in r.value.s
  {
    if item.dataType == "string" then ItemDecode(item, raw) else Ok(raw)
  }

  /** The loop of `decode` over the unpacked values: the first exception, or
      every string item's text. */
  function DecodeFields(items: seq<Item>, raw: seq<Value>): (r: Result<seq<Value>>)
    requires |items| == |raw|
    ensures r.Ok? ==> |r.value| == |items|
  {
    if items == [] then Ok([])
    else
      var n := |items| - 1;
      match DecodeFields(items[..n], raw[..n])
      case Err(e) => Err(e)
      case Ok(front) =>
        match DecodeField(items[n], raw[n])
        case Err(e) => Err(e)
        case Ok(v) => Ok(front + [v])
  }

  /** One more field: its decoded value follows, or the first exception stays. */
  lemma DecodeFieldsStep(items: seq<Item>, raw: seq<Value>, k: nat)
    requires k < |items| == |raw|
    ensures DecodeFields(items[..k + 1], raw[..k + 1])
         == match DecodeFields(items[..k], raw[..k])
            case Err(e) => Err(e)
            case Ok(front) =>
              match DecodeField(items[k], raw[k])
              case Err(e) => Err(e)
              case Ok(v) => Ok(front + [v])
  {
    assert items[..k + 1][..k] == items[..k] && raw[..k + 1][..k] == raw[..k];
  }

  /** `decode(buffer)`: unpack the first `bytesSize()` bytes in one call,
      then decode the string items; a short buffer raises struct.error. */
  function DecodeItems(items: seq<Item>, buffer: seq<byte>, bigEndian: bool): (r: Result<seq<Value>>)
    ensures |buffer| < BytesSize(items) ==> r == Err(StructError)
    ensures r.Ok? ==> |r.value| == |items|
  {
    var size := BytesSize(items);
    BytesSizeIsFormatSize(items);
    if |buffer| < size then Err(StructError)
    else
      match UnpackAll(Formats(items), buffer[..size], bigEndian)
      case Err(e) => Err(e)
      case Ok(raw) => DecodeFields(items, raw)
  }

  /** Bytes after the record do not matter to `decode`. */
  lemma DecodeIgnoresTrailingBytes(items: seq<Item>, buffer: seq<byte>, extra: seq<byte>, bigEndian: bool)
    requires |buffer| >= BytesSize(items)
    ensures DecodeItems(items, buffer + extra, bigEndian) == DecodeItems(items, buffer, bigEndian)
  {
    assert (buffer + extra)[..BytesSize(items)] == buffer[..BytesSize(items)];
  }

  /** Items as the factory builds them: the datatype attribute names the class. */
  predicate Coherent(item: Item)
  {
    item.dataType == DatatypeName(item.kind)
  }

  /** Encoding conforming values, then unpacking the bytes with the
      concatenated format and decoding the string items, gives them back. */
  lemma {:induction false} UnpackEncoded(items: seq<Item>, values: seq<Value>, bigEndian: bool)
    requires |items| == |values| && AllConform(items, values)
    ensures RoundTrips(items, values, bigEndian)
  {
    if items != [] {
      var n := |items| - 1;
      AllConformSplit(items, values);
      UnpackEncoded(items[..n], values[..n], bigEndian);
      UnpackEncodedSnoc(items, values, bigEndian);
    }
  }

  /** Every value conforms to its item, and every item is as the factory
      builds it. */
  predicate AllConform(items: seq<Item>, values: seq<Value>)
    requires |items| == |values|
  {
    forall k :: 0 <= k < |items| ==> Conforms(items[k], values[k]) && Coherent(items[k])
  }

  lemma AllConformSplit(items: seq<Item>, values: seq<Value>)
    requires |items| == |values| && items != [] && AllConform(items, values)
    ensures AllConform(items[..|items| - 1], values[..|values| - 1])
    ensures Conforms(items[|items| - 1], values[|values| - 1]) && Coherent(items[|items| - 1])
  {
  }

  /** The item-by-item encoding of the values unpacks with the concatenated
      format and decodes back to them. */
  predicate RoundTrips(items: seq<Item>, values: seq<Value>, bigEndian: bool)
    requires |items| == |values|
  {
    && EncodePairs(items, values, bigEndian).Ok?
    && UnpackAll(Formats(items), EncodePairs(items, values, bigEndian).value, bigEndian).Ok?
    && DecodeFields(items, UnpackAll(Formats(items), EncodePairs(items, values, bigEndian).value, bigEndian).value)
       == Ok(values)
  }

  /** The step of `UnpackEncoded`: one more conforming value at the end. */
  lemma UnpackEncodedSnoc(items: seq<Item>, values: seq<Value>, bigEndian: bool)
    requires |items| == |values| && items != []
    requires RoundTrips(items[..|items| - 1], values[..|values| - 1], bigEndian)
    requires Conforms(items[|items| - 1], values[|values| - 1]) && Coherent(items[|items| - 1])
    ensures RoundTrips(items, values, bigEndian)
  {
    var n := |items| - 1;
    var front, vfront, item, v := items[..n], values[..n], items[n], values[n];
    ValueRoundTrip(item, v, bigEndian);
    var b1 := EncodePairs(front, vfront, bigEndian).value;
    var b2 := EncodeValue(item, v, bigEndian).value;
    EncodeSnoc(items, values, bigEndian);
    assert EncodePairs(items, values, bigEndian) == Ok(b1 + b2);
    assert !IsFloat(Encoding(item));
    UnpackSnoc(items, b1, b2, bigEndian);
    var raw1 := UnpackAll(Formats(front), b1, bigEndian).value;
    var x := Unpack(Encoding(item), b2, bigEndian).value;
    var raw := raw1 + [x];
    assert UnpackAll(Formats(items), b1 + b2, bigEndian) == Ok(raw);
    assert raw[..n] == raw1 && raw[n] == x;
    DecodeFieldOfCoherent(item, x);
    DecodeSnoc(items, raw, vfront, v);
    PrefixAndLast(values);
  }

  /** An item as the factory builds it decodes its raw field with its own
      `decode` exactly when it is a string item. */
  lemma DecodeFieldOfCoherent(item: Item, raw: Value)
    requires Coherent(item)
    ensures DecodeField(item, raw) == ItemDecode(item, raw)
  {
  }

  lemma EncodeSnoc(items: seq<Item>, values: seq<Value>, bigEndian: bool)
    requires |items| == |values| && items != []
    requires EncodePairs(items[..|items| - 1], values[..|values| - 1], bigEndian).Ok?
    requires EncodeValue(items[|items| - 1], values[|values| - 1], bigEndian).Ok?
    ensures EncodePairs(items, values, bigEndian)
         == Ok(EncodePairs(items[..|items| - 1], values[..|values| - 1], bigEndian).value
               + EncodeValue(items[|items| - 1], values[|values| - 1], bigEndian).value)
  {
  }

  lemma UnpackSnoc(items: seq<Item>, b1: seq<byte>, b2: seq<byte>, bigEndian: bool)
    requires items != [] && !IsFloat(Encoding(items[|items| - 1]))
    requires |b1| == BytesSize(items[..|items| - 1]) && |b2| == ItemSize(items[|items| - 1])
    requires UnpackAll(Formats(items[..|items| - 1]), b1, bigEndian).Ok?
    ensures UnpackAll(Formats(items), b1 + b2, bigEndian)
         == Ok(UnpackAll(Formats(items[..|items| - 1]), b1, bigEndian).value
               + [Unpack(Encoding(items[|items| - 1]), b2, bigEndian).value])
  {
    var n := |items| - 1;
    assert Formats(items) == Formats(items[..n]) + [Encoding(items[n])];
    BytesSizeIsFormatSize(items[..n]);
    UnpackAllSnoc(Formats(items[..n]), Encoding(items[n]), b1, b2, bigEndian);
  }

  lemma DecodeSnoc(items: seq<Item>, raw: seq<Value>, vfront: seq<Value>, v: Value)
    requires |items| == |raw| && items != []
    requires DecodeFields(items[..|items| - 1], raw[..|raw| - 1]) == Ok(vfront)
    requires DecodeField(items[|items| - 1], raw[|raw| - 1]) == Ok(v)
    ensures DecodeFields(items, raw) == Ok(vfront + [v])
  {
  }

  /** Round trip: decoding what `encode` produced from in-range values gives
      them back, under either byte order. */
  lemma DecodeEncode(items: seq<Item>, values: seq<Value>, bigEndian: bool)
    requires |items| == |values|
    requires forall k :: 0 <= k < |items| ==> Conforms(items[k], values[k]) && Coherent(items[k])
    ensures EncodeItems(items, values, bigEndian).Ok?
    ensures DecodeItems(items, EncodeItems(items, values, bigEndian).value, bigEndian) == Ok(values)
  {
    assert AllConform(items, values);
    assert items[..|items|] == items && values[..|values|] == values;
    UnpackEncoded(items, values, bigEndian);
    var b := EncodeItems(items, values, bigEndian).value;
    BytesSizeIsFormatSize(items);
    assert b[..BytesSize(items)] == b;
  }

  /** `decodeTableName`'s text: UTF-8 with every NUL removed. */
  function NameText(b: seq<byte>): Result<string>
  {
    match DecodeUtf8(b)
    case Ok(s) => Ok(RemoveNul(s))
    case Err(e) => Err(e)
  }

  /** `decodeTableName(buffer)`: None for a buffer shorter than the header,
      otherwise the header's table-name field as text. */
  function DecodeTableName(buffer: seq<byte>, bigEndian: bool): (r: Result<Option<string>>)
    ensures r == Ok(None) <==> |buffer| < HeaderSize
    ensures |buffer| >= HeaderSize ==>
      r == match NameText(buffer[76..116]) case Ok(s) => Ok(Some(s)) case Err(e) => Err(e)
  {
    if |buffer| >= HeaderSize then
      HeaderLayout();
      assert forall j :: 0 <= j < |HeaderFormats| ==> !IsFloat(HeaderFormats[j]);
      UnpackAllAt(HeaderFormats, buffer[..HeaderSize], bigEndian, 12);
      assert buffer[..HeaderSize][76..116] == buffer[76..116];
      match UnpackAll(HeaderFormats, buffer[..HeaderSize], bigEndian)
      case Ok(data) =>
        match NameText(data[12].b)
        case Ok(s) => Ok(Some(s))
        case Err(e) => Err(e)
    else Ok(None)
  }

  /** What the loop of `loadJSON` leaves: the items appended, and the
      exception that stopped it, if any. */
  datatype Loaded = Loaded(items: seq<Item>, error: Option<Error>)

  /** One record: the factory's item with its default passed through `cast`,
      or nothing for an unknown datatype. */
  function LoadRecord(rec: Record): (r: Result<Option<Item>>)
    ensures r == Ok(None) <==> rec.dataType !in KnownDatatypes
    ensures r.Ok? && r.value.Some? ==>
      var item := r.value.value;
      && Some(item.kind) == KindOf(rec.dataType) && Coherent(item) && item.name == rec.name
      && Cast(item.(defaultValue := rec.defaultValue), rec.defaultValue) == Ok(item.defaultValue)
  {
    match Create(rec)
    case Err(e) => Err(e)
    case Ok(None) => Ok(None)
    case Ok(Some(item)) =>
      match Cast(item, item.defaultValue)
      case Err(e) => Err(e)
      case Ok(d) => Ok(Some(item.(defaultValue := d)))
  }

  /** The loop over the records, stopping at the first exception. */
  function Build(records: seq<Record>): (r: Loaded)
    ensures |r.items| <= |records|
    ensures forall k :: 0 <= k < |r.items| ==> Coherent(r.items[k])
  {
    if records == [] then Loaded([], None)
    else
      var prev := Build(records[..|records| - 1]);
      if prev.error.Some? then prev
      else
        match LoadRecord(records[|records| - 1])
        case Err(e) => Loaded(prev.items, Some(e))
        case Ok(None) => prev
        case Ok(Some(item)) => Loaded(prev.items + [item], None)
  }

  /** One more record while the loop is running. */
  lemma BuildStep(records: seq<Record>, k: nat)
    requires k < |records| && Build(records[..k]).error.None?
    ensures Build(records[..k + 1])
         == match LoadRecord(records[k])
            case Err(e) => Loaded(Build(records[..k]).items, Some(e))
            case Ok(None) => Build(records[..k])
            case Ok(Some(item)) => Loaded(Build(records[..k]).items + [item], None)
  {
    assert records[..k + 1][..k] == records[..k];
  }

  /** Once the loop has stopped, later records change nothing. */
  lemma {:induction false} BuildStops(records: seq<Record>, k: nat)
    requires k <= |records| && Build(records[..k]).error.Some?
    ensures Build(records) == Build(records[..k])
    decreases |records| - k
  {
    if k < |records| {
      assert records[..k + 1][..k] == records[..k];
      BuildStops(records, k + 1);
    } else {
      assert records[..k] == records;
    }
  }

  /** The records whose datatype the factory knows, in order. */
  function Known(records: seq<Record>): (r: seq<Record>)
    ensures forall k :: 0 <= k < |r| ==> r[k].dataType in KnownDatatypes
  {
    if records == [] then []
    else
      var last := records[|records| - 1];
      Known(records[..|records| - 1]) + (if last.dataType in KnownDatatypes then [last] else [])
  }

  /** A completed loop keeps one item per known record and skips every
      unknown one: same name, the class the factory picks, and the record's
      default passed through that class's `cast`. */
  lemma {:induction false} BuildKeepsKnown(records: seq<Record>)
    requires Build(records).error.None?
    ensures |Build(records).items| == |Known(records)|
    ensures forall k :: 0 <= k < |Known(records)| ==>
      var rec, item := Known(records)[k], Build(records).items[k];
      && Some(item.kind) == KindOf(rec.dataType)
      && Parse(item.kind, rec).Ok?
      && Cast(Parse(item.kind, rec).value, rec.defaultValue).Ok?
      && item == Parse(item.kind, rec).value.(defaultValue := Cast(Parse(item.kind, rec).value, rec.defaultValue).value)
  {
    if records != [] {
      var front := records[..|records| - 1];
      var last := records[|records| - 1];
      assert Build(front).error.None?;
      BuildKeepsKnown(front);
      var known, built := Known(records), Build(records).items;
      assert known[..|Known(front)|] == Known(front);
      if last.dataType in KnownDatatypes {
        var k := KindOf(last.dataType).value;
        assert LoadRecord(last).Ok? && LoadRecord(last).value.Some?;
        assert built == Build(front).items + [LoadRecord(last).value.value];
      }
    }
  }

  /** "NumBytes" is present and its default is the size of the record
      after the header. */
  predicate NumBytesSet(items: seq<Item>)
  {
    && FindIndex(items, "NumBytes").Some?
    && items[FindIndex(items, "NumBytes").value].defaultValue == Int(BytesSize(items) - HeaderSize)
  }

  /** Changing one default keeps every name lookup and the size. */
  lemma SetDefault(items: seq<Item>, k: nat, d: Value)
    requires k < |items|
    ensures FindIndex(items[k := items[k].(defaultValue := d)], "NumBytes") == FindIndex(items, "NumBytes")
    ensures BytesSize(items[k := items[k].(defaultValue := d)]) == BytesSize(items)
  {
    var after := items[k := items[k].(defaultValue := d)];
    FindIndexIgnoresDefaults(items, k, d, "NumBytes");
    forall j | 0 <= j < |items|
      ensures Encoding(items[j]) == Encoding(after[j])
    {
      assert after[j].kind == items[j].kind && after[j].length == items[j].length;
    }
    BytesSizeOfSameShape(items, after);
  }

  /** `loadJSON` of parsed records onto the items already present: the loop,
      then the "NumBytes" default set to the payload size. It changes nothing
      but that default, and fails with the loop's exception, or with
      TypeError when "NumBytes" is missing. */
  function Load(base: seq<Item>, records: seq<Record>): (r: Loaded)
    ensures var built := base + Build(records).items;
      && |r.items| == |built|
      && (forall k :: 0 <= k < |r.items| ==> r.items[k] == built[k].(defaultValue := r.items[k].defaultValue))
      && (r.error.None? <==> Build(records).error.None? && FindIndex(built, "NumBytes").Some?)
      && (r.error.Some? ==> r.items == built)
      && (Build(records).error.Some? ==> r.error == Build(records).error)
      && (Build(records).error.None? && FindIndex(built, "NumBytes").None? ==> r.error == Some(TypeError))
      && (r.error.None? ==> NumBytesSet(r.items))
      && (r.error.None? ==>
            forall j :: 0 <= j < |built| && Some(j) != FindIndex(built, "NumBytes") ==> r.items[j] == built[j])
  {
    var b := Build(records);
    if b.error.Some? then Loaded(base + b.items, b.error) else SetNumBytes(base + b.items)
  }

  /** The last statement of `loadJSON`: only the "NumBytes" default changes,
      to the size after the header; `items[findIndex("NumBytes")]` raises
      TypeError when the name is missing. */
  function SetNumBytes(items: seq<Item>): (r: Loaded)
    ensures |r.items| == |items|
    ensures forall k :: 0 <= k < |r.items| ==> r.items[k] == items[k].(defaultValue := r.items[k].defaultValue)
    ensures r.error.None? <==> FindIndex(items, "NumBytes").Some?
    ensures r.error.Some? ==> r.items == items && r.error == Some(TypeError)
    ensures r.error.None? ==> NumBytesSet(r.items)
    ensures r.error.None? ==>
      forall j :: 0 <= j < |items| && Some(j) != FindIndex(items, "NumBytes") ==> r.items[j] == items[j]
  {
    match FindIndex(items, "NumBytes")
    case None => Loaded(items, Some(TypeError))
    case Some(k) =>
      var d := Int(BytesSize(items) - HeaderSize);
      NumBytesFound(items, k);
      OnlyDefaultChanges(items, k, d);
      Loaded(items[k := items[k].(defaultValue := d)], None)
  }

  lemma OnlyDefaultChanges(items: seq<Item>, k: nat, d: Value)
    requires k < |items|
    ensures var after := items[k := items[k].(defaultValue := d)];
      forall j :: 0 <= j < |after| ==> after[j] == items[j].(defaultValue := after[j].defaultValue)
  {
    var after := items[k := items[k].(defaultValue := d)];
    forall j | 0 <= j < |after|
      ensures after[j] == items[j].(defaultValue := after[j].defaultValue)
    {
      if j != k {
        assert after[j] == items[j];
      }
    }
  }

  lemma NumBytesFound(items: seq<Item>, k: nat)
    requires FindIndex(items, "NumBytes") == Some(k)
    ensures NumBytesSet(items[k := items[k].(defaultValue := Int(BytesSize(items) - HeaderSize))])
  {
    var after := items[k := items[k].(defaultValue := Int(BytesSize(items) - HeaderSize))];
    SetDefault(items, k, Int(BytesSize(items) - HeaderSize));
    NumBytesAt(after, k, BytesSize(items));
  }

  lemma NumBytesAt(items: seq<Item>, k: nat, size: nat)
    requires FindIndex(items, "NumBytes") == Some(k) && BytesSize(items) == size
    requires items[k].defaultValue == Int(size - HeaderSize)
    ensures NumBytesSet(items)
  {
  }

  /** The parsed schema: the ordered items and the file they came from. */
  class TableDefinition {
    var items: seq<Item>
    var filename: Option<string>

    /** `TableDefinition()` with no file. */
    constructor ()
      ensures items == [] && filename == None
    {
      items := [];
      filename := None;
    }

    /** `loadJSON(filename)`, with the file's parsed records given. Nothing
        is loaded when the name is None or empty; an exception leaves the
        items appended so far and keeps the previous file name. */
    method LoadJSON(filename: Option<string>, records: seq<Record>) returns (r: Result<()>)
      modifies this
      ensures !(filename.Some? && filename.value != "") ==>
        items == old(items) && this.filename == filename && r == Ok(())
      ensures filename.Some? && filename.value != "" ==>
        items == Load(old(items), records).items
        && (r.Ok? <==> Load(old(items), records).error.None?)
        && (r.Err? ==> Some(r.error) == Load(old(items), records).error && this.filename == old(this.filename))
        && (r.Ok? ==> this.filename == filename)
    {
      if filename.Some? && filename.value != "" {
        ghost var base := items;
        r := AppendRecords(records);
        if r.Err? {
          return;
        }
        ghost var expected := SetNumBytes(items);
        assert Load(base, records) == expected;
        var idx := FindIndex(items, "NumBytes");
        if idx.None? {
          assert expected == Loaded(items, Some(TypeError));
          return Err(TypeError);
        }
        var k := idx.value;
        items := items[k := items[k].(defaultValue := Int(BytesSize(items) - HeaderSize))];
        assert expected == Loaded(items, None);
      }
      this.filename := filename;
      r := Ok(());
    }

    /** The loop of `loadJSON`: each record's item is appended, unknown
        datatypes are skipped, and the first exception stops it. */
    method AppendRecords(records: seq<Record>) returns (r: Result<()>)
      modifies this
      ensures items == old(items) + Build(records).items
      ensures r.Ok? <==> Build(records).error.None?
      ensures r.Err? ==> Build(records).error == Some(r.error)
      ensures filename == old(filename)
    {
      for k := 0 to |records|
        invariant items == old(items) + Build(records[..k]).items
        invariant Build(records[..k]).error.None?
        invariant filename == old(filename)
      {
        BuildStep(records, k);
        var loaded := LoadRecord(records[k]);
        if loaded.Err? {
          BuildStops(records, k + 1);
          return Err(loaded.error);
        }
        if loaded.value.Some? {
          items := items + [loaded.value.value];
        }
      }
      assert records[..|records|] == records;
      r := Ok(());
    }

    /** `encode(values)`: packs item after item into a growing buffer. */
    method Encode(values: seq<Value>, bigEndian: bool) returns (r: Result<seq<byte>>)
      ensures r == EncodeItems(items, values, bigEndian)
    {
      var m := if |items| <= |values| then |items| else |values|;
      ghost var pairedItems, pairedValues := items[..m], values[..m];
      var buffer: seq<byte> := [];
      for k := 0 to m
        invariant EncodePairs(pairedItems[..k], pairedValues[..k], bigEndian) == Ok(buffer)
      {
        EncodePairsStep(pairedItems, pairedValues, k, bigEndian);
        var packed := EncodeValue(items[k], values[k], bigEndian);
        if packed.Err? {
          EncodePairsStops(pairedItems, pairedValues, k + 1, bigEndian);
          return Err(packed.error);
        }
        buffer := buffer + packed.value;
      }
      assert pairedItems[..m] == pairedItems && pairedValues[..m] == pairedValues;
      r := Ok(buffer);
    }

    /** `decode(buffer)`: one unpack, then the string items are decoded in place. */
    method Decode(buffer: seq<byte>, bigEndian: bool) returns (r: Result<seq<Value>>)
      ensures r == DecodeItems(items, buffer, bigEndian)
    {
      var size := BytesSize(items);
      if |buffer| < size {
        return Err(StructError);
      }
      BytesSizeIsFormatSize(items);
      var unpacked := UnpackAll(Formats(items), buffer[..size], bigEndian);
      if unpacked.Err? {
        return Err(unpacked.error);
      }
      r := DecodeStrings(unpacked.value);
    }

    /** The loop of `decode`: each string item's raw bytes become its text. */
    method DecodeStrings(raw: seq<Value>) returns (r: Result<seq<Value>>)
      requires |raw| == |items|
      ensures r == DecodeFields(items, raw)
    {
      var data := raw;
      for k := 0 to |items|
        invariant |data| == |items|
        invariant DecodeFields(items[..k], raw[..k]) == Ok(data[..k])
        invariant data[k..] == raw[k..]
      {
        assert data[k] == raw[k];
        if items[k].dataType == "string" {
          var decoded := ItemDecode(items[k], data[k]);
          if decoded.Err? {
            DecodeFieldsStep(items, raw, k);
            DecodeFieldsStops(items, raw, k + 1);
            return Err(decoded.error);
          }
          DecodeLoopStep(items, raw, data, k, decoded.value);
          data := data[k := decoded.value];
        } else {
          DecodeLoopStep(items, raw, data, k, data[k]);
          assert data[k := data[k]] == data;
        }
      }
      assert items[..|items|] == items && raw[..|raw|] == raw && data[..|data|] == data;
      r := Ok(data);
    }
  }

  /** One pass of `decode`'s loop: entry `k` of the list takes its decoded value. */
  lemma DecodeLoopStep(items: seq<Item>, raw: seq<Value>, data: seq<Value>, k: nat, v: Value)
    requires |items| == |raw| == |data| && k < |items|
    requires DecodeFields(items[..k], raw[..k]) == Ok(data[..k]) && data[k..] == raw[k..]
    requires DecodeField(items[k], raw[k]) == Ok(v)
    ensures DecodeFields(items[..k + 1], raw[..k + 1]) == Ok(data[k := v][..k + 1])
    ensures data[k := v][k + 1..] == raw[k + 1..]
  {
    DecodeFieldsStep(items, raw, k);
    assert data[k := v][..k + 1] == data[..k] + [v];
    assert data[k := v][k + 1..] == data[k + 1..];
    assert data[k + 1..] == data[k..][1..];
  }

  /** Once a string item fails to decode, `decode` raises that exception. */
  lemma {:induction false} DecodeFieldsStops(items: seq<Item>, raw: seq<Value>, k: nat)
    requires |items| == |raw| && k <= |items|
    requires DecodeFields(items[..k], raw[..k]).Err?
    ensures DecodeFields(items, raw) == DecodeFields(items[..k], raw[..k])
    decreases |items| - k
  {
    if k < |items| {
      assert items[..k + 1][..k] == items[..k] && raw[..k + 1][..k] == raw[..k];
      DecodeFieldsStops(items, raw, k + 1);
    } else {
      assert items[..k] == items && raw[..k] == raw;
    }
  }
}
