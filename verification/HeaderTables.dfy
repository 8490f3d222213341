/** The header position tables (tools/sam-aarch64-format/header_tables.go): labels and numeric locals, sorted by
    offset, the offsets stored as varint differences. */
module HeaderTables {
  import opened Bytes
  import opened Common
  import opened StableSort
  import opened Tables

  type NameID = n: int | 0 <= n < 0x1_0000

  datatype LabelRow = LabelRow(nameID: NameID, offset: Int64)

  datatype LocalRow = LocalRow(digit: Byte, offset: Int64)

  /** A varint read as a difference of two int64. */
  function GetDelta(s: Buffer): Parsed<Int64> {
    match GetUvarint(s)
    case Ok(d, rest) =>
      GetUvarintFits(s, 0);
      RoomIs64();
      Ok(AsInt64(d), rest)
    case Err => Err
    case Panic => Panic
  }

  function Delta(x: Int64, prev: Int64): Buffer {
    Uvarint(AsUint64(Wrap(x - prev)))
  }

  lemma DeltaIsRead(x: Int64, prev: Int64, rest: Buffer)
    ensures var r := GetDelta(Delta(x, prev) + rest);
            r.Ok? && r.rest == rest && Wrap(prev + r.value) == x
  {
    UvarintRoundTrip(AsUint64(Wrap(x - prev)), rest);
    DeltaRoundTrip(x, prev);
  }

  // ---------------------------------------------------------------- labels

  /** Orders by offset, ties by name id. */
  function LabelKey(r: LabelRow): int { r.offset * 0x1_0000 + r.nameID }

  predicate LabelLess(x: LabelRow, y: LabelRow) {
    if x.offset != y.offset then x.offset < y.offset else x.nameID < y.nameID
  }

  lemma LabelKeyOrders(x: LabelRow, y: LabelRow)
    ensures LabelLess(x, y) <==> LabelKey(x) < LabelKey(y)
    ensures LabelKey(x) == LabelKey(y) ==> x == y
  {
  }

  /** Whatever the library sort does, it yields this order. */
  lemma LabelOrderUnique(labels: seq<LabelRow>, t: seq<LabelRow>)
    requires multiset(t) == multiset(labels) && forall i, j :: 0 <= i < j < |t| ==> !LabelLess(t[j], t[i])
    ensures t == Sort(labels, LabelKey)
  {
    SortIsStable(labels, LabelKey);
    forall x: LabelRow, y: LabelRow ensures LabelKey(x) == LabelKey(y) ==> x == y { LabelKeyOrders(x, y); }
    forall i, j | 0 <= i < j < |t| ensures LabelKey(t[i]) <= LabelKey(t[j]) { LabelKeyOrders(t[j], t[i]); }
    SortedIsUnique(t, Sort(labels, LabelKey), LabelKey);
  }

  function EncodeLabel(r: LabelRow, prev: Int64): (Buffer, Int64) {
    (U16(r.nameID) + Delta(r.offset, prev), r.offset)
  }

  function DecodeLabel(s: Buffer, prev: Int64): Parsed<(LabelRow, Int64)> {
    if |s| < 2 then Err
    else
      match GetDelta(s[2..])
      case Ok(d, rest) => var offset := Wrap(prev + d); Ok((LabelRow(GetU16(s), offset), offset), rest)
      case Err => Err
      case Panic => Panic
  }

  lemma {:induction false} LabelsReadBack(rows: seq<LabelRow>, prev: Int64)
    ensures AllReadBack(EncodeLabel, DecodeLabel, rows, prev)
  {
    if rows != [] {
      var r := rows[0];
      forall rest ensures ReadsBack(EncodeLabel, DecodeLabel, r, prev, rest) {
        var s := U16(r.nameID) + (Delta(r.offset, prev) + rest);
        Regroup(U16(r.nameID), Delta(r.offset, prev), rest);
        assert s[2..] == Delta(r.offset, prev) + rest && GetU16(s) == r.nameID;
        DeltaIsRead(r.offset, prev, rest);
      }
      LabelsReadBack(rows[1..], r.offset);
    }
  }

  function LabelTable(labels: seq<LabelRow>): Buffer {
    TableBytes(EncodeLabel, Sort(labels, LabelKey), 0)
  }

  method WriteLabelTable(buf: Buffer, labels: seq<LabelRow>) returns (out: Buffer)
    ensures out == buf + LabelTable(labels)
  {
    out := AppendRows(buf, EncodeLabel, Sort(labels, LabelKey), 0);
  }

  method ReadLabelTable(s: Buffer) returns (r: Parsed<seq<LabelRow>>)
    ensures r == ParseTable(DecodeLabel, s, 0)
  {
    r := ReadRows(DecodeLabel, s, 0);
  }

  /** Offsets of any sign come back, in the one sorted order. */
  lemma LabelsRoundTrip(labels: seq<LabelRow>, rest: Buffer)
    requires |labels| < 0x1_0000
    ensures ParseTable(DecodeLabel, LabelTable(labels) + rest, 0) == Ok(Sort(labels, LabelKey), rest)
  {
    LabelsReadBack(Sort(labels, LabelKey), 0);
    TableRoundTrip(EncodeLabel, DecodeLabel, Sort(labels, LabelKey), 0, rest);
  }

  // ---------------------------------------------------------------- numeric locals

  function LocalKey(r: LocalRow): int { r.offset * 256 + r.digit }

  predicate LocalLess(x: LocalRow, y: LocalRow) {
    if x.offset != y.offset then x.offset < y.offset else x.digit < y.digit
  }

  lemma LocalKeyOrders(x: LocalRow, y: LocalRow)
    ensures LocalLess(x, y) <==> LocalKey(x) < LocalKey(y)
    ensures LocalKey(x) == LocalKey(y) ==> x == y
  {
  }

  lemma LocalOrderUnique(locals: seq<LocalRow>, t: seq<LocalRow>)
    requires multiset(t) == multiset(locals) && forall i, j :: 0 <= i < j < |t| ==> !LocalLess(t[j], t[i])
    ensures t == Sort(locals, LocalKey)
  {
    SortIsStable(locals, LocalKey);
    forall x: LocalRow, y: LocalRow ensures LocalKey(x) == LocalKey(y) ==> x == y { LocalKeyOrders(x, y); }
    forall i, j | 0 <= i < j < |t| ensures LocalKey(t[i]) <= LocalKey(t[j]) { LocalKeyOrders(t[j], t[i]); }
    SortedIsUnique(t, Sort(locals, LocalKey), LocalKey);
  }

  function EncodeLocal(r: LocalRow, prev: Int64): (Buffer, Int64) {
    ([r.digit] + Delta(r.offset, prev), r.offset)
  }

  function DecodeLocal(s: Buffer, prev: Int64): Parsed<(LocalRow, Int64)> {
    if |s| < 1 then Err
    else
      match GetDelta(s[1..])
      case Ok(d, rest) => var offset := Wrap(prev + d); Ok((LocalRow(s[0], offset), offset), rest)
      case Err => Err
      case Panic => Panic
  }

  lemma {:induction false} LocalsReadBack(rows: seq<LocalRow>, prev: Int64)
    ensures AllReadBack(EncodeLocal, DecodeLocal, rows, prev)
  {
    if rows != [] {
      var r := rows[0];
      forall rest ensures ReadsBack(EncodeLocal, DecodeLocal, r, prev, rest) {
        var s := [r.digit] + (Delta(r.offset, prev) + rest);
        Regroup([r.digit], Delta(r.offset, prev), rest);
        assert s[1..] == Delta(r.offset, prev) + rest;
        DeltaIsRead(r.offset, prev, rest);
      }
      LocalsReadBack(rows[1..], r.offset);
    }
  }

  function LocalTable(locals: seq<LocalRow>): Buffer {
    TableBytes(EncodeLocal, Sort(locals, LocalKey), 0)
  }

  method WriteLocalTable(buf: Buffer, locals: seq<LocalRow>) returns (out: Buffer)
    ensures out == buf + LocalTable(locals)
  {
    out := AppendRows(buf, EncodeLocal, Sort(locals, LocalKey), 0);
  }

  method ReadLocalTable(s: Buffer) returns (r: Parsed<seq<LocalRow>>)
    ensures r == ParseTable(DecodeLocal, s, 0)
  {
    r := ReadRows(DecodeLocal, s, 0);
  }

  lemma LocalsRoundTrip(locals: seq<LocalRow>, rest: Buffer)
    requires |locals| < 0x1_0000
    ensures ParseTable(DecodeLocal, LocalTable(locals) + rest, 0) == Ok(Sort(locals, LocalKey), rest)
  {
    LocalsReadBack(Sort(locals, LocalKey), 0);
    TableRoundTrip(EncodeLocal, DecodeLocal, Sort(locals, LocalKey), 0, rest);
  }
}
