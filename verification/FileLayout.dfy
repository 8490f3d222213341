/** The bytes of a whole .tbn file (tools/sam-aarch64-format/header_tables.go, editor_region.go, writer.go, reader.go),
    described on their own, and that ReadFile accepts exactly such files. */
module FileLayout {
  import opened Bytes
  import opened Common
  import opened StableSort
  import opened Tables
  import opened HeaderTables
  import opened EditorRegion
  import opened Layout
  import opened TbnFile
  import R = Records

  // ---------------------------------------------------------------- tables

  type RowLayout<!Row, !S> = (Row, S, Buffer) -> bool

  /** One row after the other, each laid out after what the row before it left behind. */
  ghost predicate RowsLay<Row, S>(lays: RowLayout<Row, S>, next: Row -> S, rows: seq<Row>, st: S, b: Buffer) {
    if rows == [] then b == []
    else exists n :: 0 <= n <= |b| && lays(rows[0], st, b[..n]) && RowsLay(lays, next, rows[1..], next(rows[0]), b[n..])
  }

  /** The number of rows, low byte first, and the rows. */
  ghost predicate TableLays<Row, S>(lays: RowLayout<Row, S>, next: Row -> S, rows: seq<Row>, st: S, b: Buffer) {
    |b| >= 2 && b[0] + 256 * (b[1] as int) == |rows| && RowsLay(lays, next, rows, st, b[2..])
  }

  ghost predicate ReadsRow<Row, S>(dec: Decoder<Row, S>, lays: RowLayout<Row, S>, next: Row -> S, b: Buffer,
                                   rest: Buffer, st: S, row: Row, after: S) {
    dec(b + rest, st) == Ok((row, after), rest) <==> lays(row, st, b) && after == next(row)
  }

  /** The decoder takes exactly the bytes that are laid out so. */
  ghost predicate Exact<Row(!new), S(!new)>(dec: Decoder<Row, S>, lays: RowLayout<Row, S>, next: Row -> S) {
    (forall s, st :: dec(s, st).Ok? ==> Ends(s, dec(s, st).rest))
    && (forall b, rest, st, row, after :: ReadsRow(dec, lays, next, b, rest, st, row, after))
  }

  lemma {:induction false} RowsEnd<Row(!new), S(!new)>(dec: Decoder<Row, S>, s: Buffer, count: nat, st: S)
    requires forall s, st :: dec(s, st).Ok? ==> Ends(s, dec(s, st).rest)
    ensures ParseRows(dec, s, count, st).Ok? ==> Ends(s, ParseRows(dec, s, count, st).rest)
    decreases count
  {
    if count > 0 && dec(s, st).Ok? {
      RowsEnd(dec, dec(s, st).rest, count - 1, dec(s, st).value.1);
    }
  }

  lemma FirstRead<Row, S>(dec: Decoder<Row, S>, s: Buffer, st: S, row: Row, next: S, s1: Buffer, rows: seq<Row>,
                          rest: Buffer)
    requires dec(s, st) == Ok((row, next), s1) && ParseRows(dec, s1, |rows|, next) == Ok(rows, rest)
    ensures ParseRows(dec, s, 1 + |rows|, st) == Ok([row] + rows, rest)
  {
  }

  lemma {:induction false} RowsAreRead<Row(!new), S(!new)>(dec: Decoder<Row, S>, lays: RowLayout<Row, S>,
                                                           next: Row -> S, b: Buffer, rest: Buffer, rows: seq<Row>,
                                                           st: S)
    requires Exact(dec, lays, next) && RowsLay(lays, next, rows, st, b)
    ensures ParseRows(dec, b + rest, |rows|, st) == Ok(rows, rest)
    decreases |rows|
  {
    if rows == [] {
      assert b + rest == rest;
    } else {
      var n: nat :| n <= |b| && lays(rows[0], st, b[..n]) && RowsLay(lays, next, rows[1..], next(rows[0]), b[n..]);
      RowsAreRead(dec, lays, next, b[n..], rest, rows[1..], next(rows[0]));
      CutAt(b, rest, n);
      assert ReadsRow(dec, lays, next, b[..n], b[n..] + rest, st, rows[0], next(rows[0]));
      FirstRead(dec, b + rest, st, rows[0], next(rows[0]), b[n..] + rest, rows[1..], rest);
      FirstAndRest(rows);
    }
  }

  lemma FirstRowCut<Row(!new), S(!new)>(dec: Decoder<Row, S>, lays: RowLayout<Row, S>, next: Row -> S, b: Buffer,
                                        rest: Buffer, rows: seq<Row>, st: S, count: nat) returns (n: nat)
    requires Exact(dec, lays, next) && count > 0 && ParseRows(dec, b + rest, count, st) == Ok(rows, rest)
    ensures rows != [] && n <= |b| && lays(rows[0], st, b[..n])
    ensures ParseRows(dec, b[n..] + rest, count - 1, next(rows[0])) == Ok(rows[1..], rest)
  {
    var first := dec(b + rest, st);
    RowsEnd(dec, first.rest, count - 1, first.value.1);
    n := CutInFront(b, rest, first.rest);
    assert ReadsRow(dec, lays, next, b[..n], first.rest, st, first.value.0, first.value.1);
  }

  lemma {:induction false} ReadRowsAreLaid<Row(!new), S(!new)>(dec: Decoder<Row, S>, lays: RowLayout<Row, S>,
                                                               next: Row -> S, b: Buffer, rest: Buffer,
                                                               rows: seq<Row>, st: S, count: nat)
    requires Exact(dec, lays, next) && ParseRows(dec, b + rest, count, st) == Ok(rows, rest)
    ensures |rows| == count && RowsLay(lays, next, rows, st, b)
    decreases count
  {
    if count == 0 {
      assert |b + rest| == |rest|;
    } else {
      var n := FirstRowCut(dec, lays, next, b, rest, rows, st, count);
      ReadRowsAreLaid(dec, lays, next, b[n..], rest, rows[1..], next(rows[0]), count - 1);
    }
  }

  /** A table is read exactly where it is laid out. */
  lemma TableReads<Row(!new), S(!new)>(dec: Decoder<Row, S>, lays: RowLayout<Row, S>, next: Row -> S, b: Buffer,
                                       rest: Buffer, rows: seq<Row>, st: S)
    requires Exact(dec, lays, next)
    ensures ParseTable(dec, b + rest, st) == Ok(rows, rest) <==> TableLays(lays, next, rows, st, b)
  {
    var s := b + rest;
    if |b| >= 2 {
      assert s[2..] == b[2..] + rest;
      if TableLays(lays, next, rows, st, b) { RowsAreRead(dec, lays, next, b[2..], rest, rows, st); }
      if ParseTable(dec, s, st) == Ok(rows, rest) {
        ReadRowsAreLaid(dec, lays, next, b[2..], rest, rows, st, GetU16(s));
      }
    } else if |s| >= 2 {
      RowsEnd(dec, s[2..], GetU16(s), st);
    }
  }

  lemma TableEnds<Row(!new), S(!new)>(dec: Decoder<Row, S>, s: Buffer, st: S)
    requires forall s, st :: dec(s, st).Ok? ==> Ends(s, dec(s, st).rest)
    ensures ParseTable(dec, s, st).Ok? ==> Ends(s, ParseTable(dec, s, st).rest)
  {
    if |s| >= 2 {
      RowsEnd(dec, s[2..], GetU16(s), st);
    }
  }

  // ---------------------------------------------------------------- rows

  /** A varint that leads from one offset to the next, modulo 2^64. */
  predicate DeltaLays(prev: Int64, x: Int64, b: Buffer) {
    VarintLays(Septets(b), b) && (prev + Septets(b) - x) % 0x1_0000_0000_0000_0000 == 0
  }

  predicate LabelLays(r: LabelRow, prev: Int64, b: Buffer) {
    |b| >= 2 && b[0] + 256 * (b[1] as int) == r.nameID && DeltaLays(prev, r.offset, b[2..])
  }

  predicate LocalLays(r: LocalRow, prev: Int64, b: Buffer) {
    |b| >= 1 && b[0] == r.digit && DeltaLays(prev, r.offset, b[1..])
  }

  predicate IdLays(id: NameID, st: (), b: Buffer) {
    |b| == 2 && b[0] + 256 * (b[1] as int) == id
  }

  /** How much is shared with the name before, how much follows, and what follows. */
  ghost predicate NameLays(name: Name, prev: Name, b: Buffer) {
    exists i :: 0 <= i <= |b| && VarintLays(Septets(b[..i]), b[..i])
                && SuffixLays(name, prev, Septets(b[..i]), b[i..])
  }

  ghost predicate SuffixLays(name: Name, prev: Name, shared: nat, b: Buffer) {
    shared <= |prev| && shared < 0x8000_0000_0000_0000
    && exists k :: 0 <= k <= |b| && VarintLays(|b| - k, b[..k]) && Sized(b[k..]) && name == prev[..shared] + b[k..]
  }

  predicate BlankLaysAt(r: SidecarRow, prev: Int64, b: Buffer, i: nat)
    requires i <= |b|
  {
    r.Blank? && DeltaLays(prev, r.anchor, b[..i])
    && VarintLays(Septets(b[i..]), b[i..]) && Septets(b[i..]) % 0x1_0000_0000 == r.runLen
  }

  predicate CommentLaysAt(r: SidecarRow, prev: Int64, b: Buffer, i: nat)
    requires i <= |b|
  {
    r.Comment? && DeltaLays(prev, r.anchor, b[..i]) && i + 3 <= |b|
    && b[i] == r.placement && b[i + 1] + 256 * (b[i + 2] as int) == |r.body| && b[i + 3..] == r.body
  }

  /** A comment without a kind byte, as older files have it. */
  ghost predicate UntaggedLays(r: SidecarRow, prev: Int64, b: Buffer) {
    exists i :: 0 <= i <= |b| && CommentLaysAt(r, prev, b, i)
  }

  /** Kind 0 and a comment, or kind 1 and a run of blank lines. */
  ghost predicate TaggedLays(r: SidecarRow, prev: Int64, b: Buffer) {
    b != []
    && ((b[0] == 0 && UntaggedLays(r, prev, b[1..]))
        || (b[0] == 1 && exists i :: 0 <= i < |b| && BlankLaysAt(r, prev, b[1..], i)))
  }

  function LabelNext(r: LabelRow): Int64 { r.offset }

  function LocalNext(r: LocalRow): Int64 { r.offset }

  function IdNext(id: NameID): () { () }

  function NameNext(n: Name): Name { n }

  function SidecarNext(r: SidecarRow): Int64 { r.anchor }

  // ---------------------------------------------------------------- each row is read so

  lemma DeltaReads(b: Buffer, rest: Buffer, d: Int64)
    ensures GetDelta(b + rest) == Ok(d, rest) <==> VarintLays(AsUint64(d), b)
  {
    var s := b + rest;
    VarintReads(b, rest, AsUint64(d));
    GetUvarintFits(s, 0);
    RoomIs64();
    if GetUvarint(s).Ok? { VarintReads(b, rest, GetUvarint(s).value); }
  }

  lemma DeltaEnds(s: Buffer)
    ensures GetDelta(s).Ok? ==> Ends(s, GetDelta(s).rest) && |GetDelta(s).rest| < |s|
  {
    GetUvarintFits(s, 0);
  }

  lemma StepTo(prev: Int64, n: nat, x: Int64)
    requires n < TWO_64
    ensures Wrap(prev + AsInt64(n)) == x <==> (prev + n - x) % 0x1_0000_0000_0000_0000 == 0
  {
    var w := Wrap(prev + AsInt64(n));
    assert (prev + n - w) % TWO_64 == 0 by {
      assert prev + n - w == 0 || prev + n - w == TWO_64 || prev + n - w == -TWO_64;
    }
    OneResidue(prev + n, w, x);
  }

  lemma OneResidue(n: int, w: Int64, x: Int64)
    requires (n - w) % TWO_64 == 0
    ensures w == x <==> (n - x) % TWO_64 == 0
  {
  }

  /** A difference is read, and leads to x, exactly where it is laid out. */
  lemma OffsetReads(b: Buffer, rest: Buffer, prev: Int64, x: Int64)
    ensures var r := GetDelta(b + rest);
            (r.Ok? && r.rest == rest && Wrap(prev + r.value) == x) <==> DeltaLays(prev, x, b)
  {
    var r, n := GetDelta(b + rest), Septets(b);
    if r.Ok? && r.rest == rest {
      DeltaReads(b, rest, r.value);
      StepTo(prev, AsUint64(r.value), x);
    }
    if VarintLays(n, b) {
      DeltaReads(b, rest, AsInt64(n));
      StepTo(prev, n, x);
    }
  }

  lemma LabelReads(b: Buffer, rest: Buffer, prev: Int64, row: LabelRow, after: Int64)
    ensures ReadsRow(DecodeLabel, LabelLays, LabelNext, b, rest, prev, row, after)
  {
    var s := b + rest;
    if |b| >= 2 {
      assert s[2..] == b[2..] + rest && s[0] == b[0] && s[1] == b[1];
      OffsetReads(b[2..], rest, prev, row.offset);
    } else if |s| >= 2 {
      DeltaEnds(s[2..]);
    }
  }

  lemma LabelsExact()
    ensures Exact(DecodeLabel, LabelLays, LabelNext)
  {
    forall s, st: Int64 ensures DecodeLabel(s, st).Ok? ==> Ends(s, DecodeLabel(s, st).rest) {
      if |s| >= 2 { DeltaEnds(s[2..]); }
    }
    forall b, rest, st, row, after ensures ReadsRow(DecodeLabel, LabelLays, LabelNext, b, rest, st, row, after) {
      LabelReads(b, rest, st, row, after);
    }
  }

  lemma LocalReads(b: Buffer, rest: Buffer, prev: Int64, row: LocalRow, after: Int64)
    ensures ReadsRow(DecodeLocal, LocalLays, LocalNext, b, rest, prev, row, after)
  {
    var s := b + rest;
    if |b| >= 1 {
      assert s[1..] == b[1..] + rest && s[0] == b[0];
      OffsetReads(b[1..], rest, prev, row.offset);
    } else if |s| >= 1 {
      DeltaEnds(s[1..]);
    }
  }

  lemma LocalsExact()
    ensures Exact(DecodeLocal, LocalLays, LocalNext)
  {
    forall s, st: Int64 ensures DecodeLocal(s, st).Ok? ==> Ends(s, DecodeLocal(s, st).rest) {
      if |s| >= 1 { DeltaEnds(s[1..]); }
    }
    forall b, rest, st, row, after ensures ReadsRow(DecodeLocal, LocalLays, LocalNext, b, rest, st, row, after) {
      LocalReads(b, rest, st, row, after);
    }
  }

  lemma IdReads(b: Buffer, rest: Buffer, st: (), row: NameID, after: ())
    ensures ReadsRow(DecodeId, IdLays, IdNext, b, rest, st, row, after)
  {
    var s := b + rest;
    if |b| == 2 { assert s[2..] == rest && s[0] == b[0] && s[1] == b[1]; }
  }

  lemma IdsExact()
    ensures Exact(DecodeId, IdLays, IdNext)
  {
    forall b, rest, st, row, after ensures ReadsRow(DecodeId, IdLays, IdNext, b, rest, st, row, after) {
      IdReads(b, rest, st, row, after);
    }
  }

  lemma Split(a: Buffer, b: Buffer)
    ensures (a + b)[..|a|] == a && (a + b)[|a|..] == b
  {
  }

  /** A name from its second length on. */
  function DecodeSuffix(s: Buffer, prev: Name, shared: Int64): Parsed<(Name, Name)> {
    match GetDelta(s)
    case Err => Err
    case Panic => Panic
    case Ok(suffix, s2) =>
      if shared > |prev| then Err
      else if suffix > |s2| then Err
      else if shared < 0 || suffix < 0 then Panic
      else Ok((prev[..shared] + s2[..suffix], prev[..shared] + s2[..suffix]), s2[suffix..])
  }

  lemma NameParts(s: Buffer, prev: Name)
    ensures DecodeName(s, prev)
            == match GetDelta(s)
               case Err => Err
               case Panic => Panic
               case Ok(shared, s1) => DecodeSuffix(s1, prev, shared)
  {
  }

  lemma SuffixIsRead(b: Buffer, rest: Buffer, prev: Name, shared: Int64, name: Name)
    requires 0 <= shared && SuffixLays(name, prev, shared, b)
    ensures DecodeSuffix(b + rest, prev, shared) == Ok((name, name), rest)
  {
    var k: nat :| k <= |b| && VarintLays(|b| - k, b[..k]) && Sized(b[k..]) && name == prev[..shared] + b[k..];
    CutAt(b, rest, k);
    DeltaReads(b[..k], b[k..] + rest, |b| - k);
    Split(b[k..], rest);
  }

  lemma NameIsRead(b: Buffer, rest: Buffer, prev: Name, name: Name)
    requires NameLays(name, prev, b)
    ensures DecodeName(b + rest, prev) == Ok((name, name), rest)
  {
    var i: nat :| i <= |b| && VarintLays(Septets(b[..i]), b[..i]) && SuffixLays(name, prev, Septets(b[..i]), b[i..]);
    CutAt(b, rest, i);
    DeltaReads(b[..i], b[i..] + rest, Septets(b[..i]));
    SuffixIsRead(b[i..], rest, prev, Septets(b[..i]), name);
    NameParts(b + rest, prev);
  }

  /** A length that is read ahead of the rest. */
  lemma LengthFound(b: Buffer, rest: Buffer, mid: Buffer) returns (i: nat)
    requires GetDelta(b + rest).Ok? && GetDelta(b + rest).rest == mid && |mid| >= |rest|
    ensures i <= |b| && mid == b[i..] + rest && VarintLays(AsUint64(GetDelta(b + rest).value), b[..i])
  {
    DeltaEnds(b + rest);
    i := CutInFront(b, rest, mid);
    DeltaReads(b[..i], mid, GetDelta(b + rest).value);
  }

  lemma SuffixIs(t: Buffer, rest: Buffer, suffix: nat)
    requires suffix <= |t + rest| && (t + rest)[suffix..] == rest
    ensures suffix == |t| && (t + rest)[..suffix] == t
  {
    assert |(t + rest)[suffix..]| == |t| + |rest| - suffix;
  }

  lemma ReadSuffixIsLaid(b: Buffer, rest: Buffer, prev: Name, shared: Int64, name: Name)
    requires DecodeSuffix(b + rest, prev, shared) == Ok((name, name), rest)
    ensures 0 <= shared && SuffixLays(name, prev, shared, b)
  {
    var second := GetDelta(b + rest);
    var k := LengthFound(b, rest, second.rest);
    SuffixIs(b[k..], rest, second.value);
  }

  lemma ReadNameIsLaid(b: Buffer, rest: Buffer, prev: Name, name: Name)
    requires DecodeName(b + rest, prev) == Ok((name, name), rest)
    ensures NameLays(name, prev, b)
  {
    NameParts(b + rest, prev);
    var first := GetDelta(b + rest);
    DeltaEnds(first.rest);
    var i := LengthFound(b, rest, first.rest);
    ReadSuffixIsLaid(b[i..], rest, prev, first.value, name);
  }

  lemma NamesExact()
    ensures Exact(DecodeName, NameLays, NameNext)
  {
    forall s, st: Name ensures DecodeName(s, st).Ok? ==> Ends(s, DecodeName(s, st).rest) {
      DeltaEnds(s);
      if GetDelta(s).Ok? { DeltaEnds(GetDelta(s).rest); }
    }
    forall b, rest, st, row, after ensures ReadsRow(DecodeName, NameLays, NameNext, b, rest, st, row, after) {
      if NameLays(row, st, b) {
        NameIsRead(b, rest, st, row);
      }
      if DecodeName(b + rest, st) == Ok((row, row), rest) { ReadNameIsLaid(b, rest, st, row); }
    }
  }

  /** What follows the anchor of a comment. */
  lemma CommentTailReads(b: Buffer, rest: Buffer, anchor: Int64, r: SidecarRow, after: Int64)
    ensures DecodeComment(b + rest, anchor) == Ok((r, after), rest) <==>
            r.Comment? && r.anchor == anchor == after && |b| >= 3 && b[0] == r.placement
            && b[1] + 256 * (b[2] as int) == |r.body| && b[3..] == r.body
  {
    var s := b + rest;
    if |b| >= 3 {
      assert s[0] == b[0] && s[1..][0] == b[1] && s[1..][1] == b[2];
      var len := GetU16(s[1..]);
      if 3 + len == |b| { assert s[3..3 + len] == b[3..] && s[3 + len..] == rest; }
    }
  }

  /** What follows the anchor of a run of blank lines. */
  lemma BlankTailReads(b: Buffer, rest: Buffer, n: nat)
    ensures GetUvarint(b + rest) == Ok(n, rest) <==> VarintLays(Septets(b), b) && n == Septets(b)
  {
    VarintReads(b, rest, n);
  }

  lemma AnchorCut(s: Buffer, b: Buffer, rest: Buffer, prev: Int64, mid: Buffer) returns (i: nat)
    requires s == b + rest && GetDelta(s).Ok? && GetDelta(s).rest == mid && |mid| >= |rest|
    ensures i <= |b| && mid == b[i..] + rest && DeltaLays(prev, Wrap(prev + GetDelta(s).value), b[..i])
  {
    DeltaEnds(s);
    i := CutInFront(b, rest, mid);
    OffsetReads(b[..i], mid, prev, Wrap(prev + GetDelta(s).value));
  }

  lemma CommentIsRead(b: Buffer, rest: Buffer, prev: Int64, r: SidecarRow, i: nat)
    requires i <= |b| && CommentLaysAt(r, prev, b, i)
    ensures DecodeTail(0, b + rest, prev) == Ok((r, r.anchor), rest)
  {
    CutAt(b, rest, i);
    OffsetReads(b[..i], b[i..] + rest, prev, r.anchor);
    assert b[i..][3..] == b[i + 3..];
    CommentTailReads(b[i..], rest, r.anchor, r, r.anchor);
  }

  lemma ReadCommentIsLaid(b: Buffer, rest: Buffer, prev: Int64, r: SidecarRow, after: Int64)
    requires DecodeTail(0, b + rest, prev) == Ok((r, after), rest)
    ensures UntaggedLays(r, prev, b) && after == r.anchor
  {
    var s := b + rest;
    var mid := GetDelta(s).rest;
    var i := AnchorCut(s, b, rest, prev, mid);
    var anchor := Wrap(prev + GetDelta(s).value);
    CommentTailReads(b[i..], rest, anchor, r, after);
    assert b[i..][3..] == b[i + 3..];
    assert CommentLaysAt(r, prev, b, i);
  }

  lemma BlankIsRead(b: Buffer, rest: Buffer, prev: Int64, r: SidecarRow, i: nat)
    requires i <= |b| && BlankLaysAt(r, prev, b, i)
    ensures DecodeTail(1, b + rest, prev) == Ok((r, r.anchor), rest)
  {
    CutAt(b, rest, i);
    OffsetReads(b[..i], b[i..] + rest, prev, r.anchor);
    BlankTailReads(b[i..], rest, Septets(b[i..]));
  }

  lemma ReadBlankIsLaid(b: Buffer, rest: Buffer, prev: Int64, r: SidecarRow, after: Int64) returns (i: nat)
    requires DecodeTail(1, b + rest, prev) == Ok((r, after), rest)
    ensures i <= |b| && BlankLaysAt(r, prev, b, i) && after == r.anchor
  {
    var s := b + rest;
    var mid := GetDelta(s).rest;
    GetUvarintFits(mid, 0);
    i := AnchorCut(s, b, rest, prev, mid);
    BlankTailReads(b[i..], rest, GetUvarint(mid).value);
  }

  lemma TailEnds(kind: Byte, s: Buffer, prev: Int64)
    ensures DecodeTail(kind, s, prev).Ok? ==> Ends(s, DecodeTail(kind, s, prev).rest)
  {
    DeltaEnds(s);
    if GetDelta(s).Ok? { GetUvarintFits(GetDelta(s).rest, 0); }
  }

  lemma UntaggedExact()
    ensures Exact(DecodeUntagged, UntaggedLays, SidecarNext)
  {
    forall s, st: Int64 ensures DecodeUntagged(s, st).Ok? ==> Ends(s, DecodeUntagged(s, st).rest) {
      TailEnds(0, s, st);
    }
    forall b, rest, st, row, after
      ensures ReadsRow(DecodeUntagged, UntaggedLays, SidecarNext, b, rest, st, row, after)
    {
      if UntaggedLays(row, st, b) {
        var i :| 0 <= i <= |b| && CommentLaysAt(row, st, b, i);
        CommentIsRead(b, rest, st, row, i);
      }
      if DecodeUntagged(b + rest, st) == Ok((row, after), rest) { ReadCommentIsLaid(b, rest, st, row, after); }
    }
  }

  lemma TaggedIsRead(b: Buffer, rest: Buffer, prev: Int64, r: SidecarRow)
    requires TaggedLays(r, prev, b)
    ensures DecodeTagged(b + rest, prev) == Ok((r, r.anchor), rest)
  {
    assert (b + rest)[1..] == b[1..] + rest && (b + rest)[0] == b[0];
    if b[0] == 0 {
      var i :| 0 <= i <= |b| - 1 && CommentLaysAt(r, prev, b[1..], i);
      CommentIsRead(b[1..], rest, prev, r, i);
    } else {
      var i :| 0 <= i < |b| && BlankLaysAt(r, prev, b[1..], i);
      BlankIsRead(b[1..], rest, prev, r, i);
    }
  }

  lemma ReadTaggedIsLaid(b: Buffer, rest: Buffer, prev: Int64, r: SidecarRow, after: Int64)
    requires DecodeTagged(b + rest, prev) == Ok((r, after), rest)
    ensures TaggedLays(r, prev, b) && after == r.anchor
  {
    var s := b + rest;
    TailEnds(s[0], s[1..], prev);
    assert b != [];
    assert s[1..] == b[1..] + rest && s[0] == b[0];
    if b[0] == 0 {
      ReadCommentIsLaid(b[1..], rest, prev, r, after);
    } else {
      var i := ReadBlankIsLaid(b[1..], rest, prev, r, after);
    }
  }

  lemma TaggedExact()
    ensures Exact(DecodeTagged, TaggedLays, SidecarNext)
  {
    forall s, st: Int64 ensures DecodeTagged(s, st).Ok? ==> Ends(s, DecodeTagged(s, st).rest) {
      if s != [] { TailEnds(s[0], s[1..], st); }
    }
    forall b, rest, st, row, after ensures ReadsRow(DecodeTagged, TaggedLays, SidecarNext, b, rest, st, row, after) {
      if TaggedLays(row, st, b) { TaggedIsRead(b, rest, st, row); }
      if DecodeTagged(b + rest, st) == Ok((row, after), rest) { ReadTaggedIsLaid(b, rest, st, row, after); }
    }
  }

  // ---------------------------------------------------------------- the file

  predicate IsComment(r: SidecarRow) { r.Comment? }

  ghost predicate SidecarLays(tagged: bool, rows: seq<SidecarRow>, b: Buffer) {
    if tagged then TableLays(TaggedLays, SidecarNext, rows, 0, b) else TableLays(UntaggedLays, SidecarNext, rows, 0, b)
  }

  /** "SA64", version 3, the flags and the offset of the editor region. */
  predicate HeaderLays(f: File, b: Buffer, offset: nat) {
    12 <= offset <= |b| && b[..4] == [0x53, 0x41, 0x36, 0x34] && b[4..6] == [3, 0] && f.version == 3
    && f.flags == b[6] + 256 * (b[7] as int) && Little(b[8..12]) == offset
  }

  /** Labels, locals and records, up to the editor region. */
  ghost predicate FrontLays(f: File, b: Buffer, offset: nat, i: nat, j: nat) {
    12 <= i <= j <= offset <= |b|
    && TableLays(LabelLays, LabelNext, f.labels, 0, b[12..i])
    && TableLays(LocalLays, LocalNext, f.locals, 0, b[i..j])
    && RecordsLay(f.records, b[j..offset])
  }

  /** Names, global ids and the sidecar, from the offset on. */
  ghost predicate EditorLays(f: File, b: Buffer, offset: nat, k: nat, l: nat, m: nat) {
    offset <= k <= l <= m <= |b|
    && TableLays(NameLays, NameNext, f.names, [], b[offset..k])
    && TableLays(IdLays, IdNext, f.globals, (), b[k..l])
    && SidecarLays(f.flags % 2 == 1, f.sidecar, b[l..m])
  }

  ghost predicate FileLaysAt(f: File, b: Buffer, offset: nat, i: nat, j: nat, k: nat, l: nat, m: nat) {
    HeaderLays(f, b, offset) && FrontLays(f, b, offset, i, j) && EditorLays(f, b, offset, k, l, m)
    && Picks(f.sidecar, IsComment, f.comments)
  }

  /** A file is laid out so if it can be cut so; what follows the sidecar is not looked at. */
  ghost predicate FileLays(f: File, b: Buffer) {
    exists offset, i, j, k, l, m :: FileLaysAt(f, b, offset, i, j, k, l, m)
  }

  lemma {:induction false} CommentsArePicked(rows: seq<SidecarRow>, keep: SidecarRow -> bool)
    returns (places: seq<nat>)
    requires forall r :: keep(r) == r.Comment?
    ensures PicksAt(rows, keep, CommentsOf(rows), places)
  {
    places := [];
    if rows != [] {
      var n := |rows| - 1;
      var before := CommentsArePicked(rows[..n], keep);
      PicksOneMore(rows, keep, CommentsOf(rows[..n]), before);
      places := before + (if keep(rows[n]) then [n] else []);
    }
  }

  lemma CommentsStep(rows: seq<SidecarRow>)
    requires rows != []
    ensures var n := |rows| - 1;
            CommentsOf(rows) == if rows[n].Comment? then CommentsOf(rows[..n]) + [rows[n]] else CommentsOf(rows[..n])
  {
    AddNothing(CommentsOf(rows[..|rows| - 1]));
  }

  lemma {:induction false} PickedAreComments(rows: seq<SidecarRow>, keep: SidecarRow -> bool, out: seq<SidecarRow>,
                                             places: seq<nat>)
    requires PicksAt(rows, keep, out, places) && forall r :: keep(r) == r.Comment?
    ensures out == CommentsOf(rows)
  {
    assert places != [] ==> places[0] < |rows|;
    if rows != [] {
      var n, k := |rows| - 1, |out| - 1;
      CommentsStep(rows);
      PicksLast(rows, keep, out, places);
      if keep(rows[n]) {
        PickedAreComments(rows[..n], keep, out[..k], places[..k]);
      } else {
        PickedAreComments(rows[..n], keep, out, places);
      }
    }
  }

  /** The projection has the comments of the sidecar, in their order. */
  lemma CommentsAre(rows: seq<SidecarRow>, out: seq<SidecarRow>)
    ensures Picks(rows, IsComment, out) <==> out == CommentsOf(rows)
  {
    if places :| PicksAt(rows, IsComment, out, places) { PickedAreComments(rows, IsComment, out, places); }
    var places := CommentsArePicked(rows, IsComment);
  }

  lemma TableFound<Row(!new), S(!new)>(dec: Decoder<Row, S>, lays: RowLayout<Row, S>, next: Row -> S, s: Buffer, st: S)
    returns (n: nat)
    requires Exact(dec, lays, next) && ParseTable(dec, s, st).Ok?
    ensures n <= |s| && ParseTable(dec, s, st).rest == s[n..]
    ensures TableLays(lays, next, ParseTable(dec, s, st).value, st, s[..n])
  {
    var r := ParseTable(dec, s, st);
    TableEnds(dec, s, st);
    n := |s| - |r.rest|;
    BothCuts(s, n);
    TableReads(dec, lays, next, s[..n], r.rest, r.value, st);
  }

  lemma TableAt<Row(!new), S(!new)>(dec: Decoder<Row, S>, lays: RowLayout<Row, S>, next: Row -> S, s: Buffer,
                                    rows: seq<Row>, st: S, n: nat)
    requires Exact(dec, lays, next) && n <= |s| && TableLays(lays, next, rows, st, s[..n])
    ensures ParseTable(dec, s, st) == Ok(rows, s[n..])
  {
    BothCuts(s, n);
    TableReads(dec, lays, next, s[..n], s[n..], rows, st);
  }

  lemma Slices(b: Buffer, i: nat, j: nat)
    requires i <= j <= |b|
    ensures b[i..][..j - i] == b[i..j] && b[i..][j - i..] == b[j..]
  {
  }

  lemma SidecarAt(tagged: bool, s: Buffer, rows: seq<SidecarRow>, n: nat)
    requires n <= |s| && SidecarLays(tagged, rows, s[..n])
    ensures ParseSidecar(s, tagged) == Ok(rows, s[n..])
  {
    if tagged { TableAt(DecodeTagged, TaggedLays, SidecarNext, s, rows, 0, n) by { TaggedExact(); } }
    else { TableAt(DecodeUntagged, UntaggedLays, SidecarNext, s, rows, 0, n) by { UntaggedExact(); } }
  }

  lemma SidecarFound(tagged: bool, s: Buffer) returns (n: nat)
    requires ParseSidecar(s, tagged).Ok?
    ensures n <= |s| && SidecarLays(tagged, ParseSidecar(s, tagged).value, s[..n])
  {
    TaggedExact();
    UntaggedExact();
    if tagged { n := TableFound(DecodeTagged, TaggedLays, SidecarNext, s, 0); }
    else { n := TableFound(DecodeUntagged, UntaggedLays, SidecarNext, s, 0); }
  }

  lemma EditorIsRead(f: File, b: Buffer, offset: nat, k: nat, l: nat, m: nat)
    requires EditorLays(f, b, offset, k, l, m)
    ensures ParseEditor(b[offset..], f.flags % 2 == 1) == Ok((f.names, f.globals, f.sidecar), b[m..])
  {
    NamesAreRead(b, f.names, offset, k);
    IdsAreRead(b, f.globals, k, l);
    SidecarIsRead(b, f.sidecar, f.flags % 2 == 1, l, m);
    EditorFrom(b[offset..], b[k..], b[l..], b[m..], f.flags % 2 == 1, f.names, f.globals, f.sidecar);
  }

  lemma NamesAreRead(b: Buffer, names: seq<Name>, i: nat, j: nat)
    requires i <= j <= |b| && TableLays(NameLays, NameNext, names, [], b[i..j])
    ensures ParseTable(DecodeName, b[i..], []) == Ok(names, b[j..])
  {
    Slices(b, i, j);
    TableAt(DecodeName, NameLays, NameNext, b[i..], names, [], j - i) by { NamesExact(); }
  }

  lemma IdsAreRead(b: Buffer, ids: seq<NameID>, i: nat, j: nat)
    requires i <= j <= |b| && TableLays(IdLays, IdNext, ids, (), b[i..j])
    ensures ParseTable(DecodeId, b[i..], ()) == Ok(ids, b[j..])
  {
    Slices(b, i, j);
    TableAt(DecodeId, IdLays, IdNext, b[i..], ids, (), j - i) by { IdsExact(); }
  }

  lemma SidecarIsRead(b: Buffer, rows: seq<SidecarRow>, tagged: bool, i: nat, j: nat)
    requires i <= j <= |b| && SidecarLays(tagged, rows, b[i..j])
    ensures ParseSidecar(b[i..], tagged) == Ok(rows, b[j..])
  {
    Slices(b, i, j);
    SidecarAt(tagged, b[i..], rows, j - i);
  }

  lemma EditorFrom(s: Buffer, s1: Buffer, s2: Buffer, s3: Buffer, tagged: bool, names: seq<Name>, ids: seq<NameID>,
                   rows: seq<SidecarRow>)
    requires ParseTable(DecodeName, s, []) == Ok(names, s1) && ParseTable(DecodeId, s1, ()) == Ok(ids, s2)
    requires ParseSidecar(s2, tagged) == Ok(rows, s3)
    ensures ParseEditor(s, tagged) == Ok((names, ids, rows), s3)
  {
  }

  lemma NamesFound(b: Buffer, names: seq<Name>, i: nat, rest: Buffer) returns (j: nat)
    requires i <= |b| && ParseTable(DecodeName, b[i..], []) == Ok(names, rest)
    ensures i <= j <= |b| && rest == b[j..] && TableLays(NameLays, NameNext, names, [], b[i..j])
  {
    var n := TableFound(DecodeName, NameLays, NameNext, b[i..], []) by { NamesExact(); }
    j := i + n;
    Slices(b, i, j);
  }

  lemma IdsFound(b: Buffer, ids: seq<NameID>, i: nat, rest: Buffer) returns (j: nat)
    requires i <= |b| && ParseTable(DecodeId, b[i..], ()) == Ok(ids, rest)
    ensures i <= j <= |b| && rest == b[j..] && TableLays(IdLays, IdNext, ids, (), b[i..j])
  {
    var n := TableFound(DecodeId, IdLays, IdNext, b[i..], ()) by { IdsExact(); }
    j := i + n;
    Slices(b, i, j);
  }

  lemma EditorParts(s: Buffer, tagged: bool) returns (s1: Buffer, s2: Buffer)
    requires ParseEditor(s, tagged).Ok?
    ensures var e := ParseEditor(s, tagged).value;
            ParseTable(DecodeName, s, []) == Ok(e.0, s1) && ParseTable(DecodeId, s1, ()) == Ok(e.1, s2)
            && ParseSidecar(s2, tagged).Ok? && ParseSidecar(s2, tagged).value == e.2
  {
    s1 := ParseTable(DecodeName, s, []).rest;
    s2 := ParseTable(DecodeId, s1, ()).rest;
  }

  lemma ReadEditorIsLaid(b: Buffer, f: File, offset: nat) returns (k: nat, l: nat, m: nat)
    requires offset <= |b| && EditorIs(b[offset..], f)
    ensures EditorLays(f, b, offset, k, l, m)
  {
    var s1, s2 := EditorParts(b[offset..], f.flags % 2 == 1);
    k := NamesFound(b, f.names, offset, s1);
    l := IdsFound(b, f.globals, k, s2);
    m := RowsFound(b, f.sidecar, l, f.flags % 2 == 1);
  }

  lemma RowsFound(b: Buffer, rows: seq<SidecarRow>, i: nat, tagged: bool) returns (j: nat)
    requires i <= |b| && ParseSidecar(b[i..], tagged).Ok? && ParseSidecar(b[i..], tagged).value == rows
    ensures i <= j <= |b| && SidecarLays(tagged, rows, b[i..j])
  {
    var n := SidecarFound(tagged, b[i..]);
    j := i + n;
    Slices(b, i, j);
  }

  lemma HeaderBytes(b: Buffer)
    requires |b| >= 12
    ensures GetU16(b[4..]) == 3 <==> b[4..6] == [3, 0]
    ensures GetU16(b[6..]) == b[6] + 256 * (b[7] as int)
    ensures GetU32(b[8..]) == Little(b[8..12])
  {
    U16At(b, 4);
    U16At(b, 6);
    assert b[4..6] == [b[4], b[5]];
    Slices(b, 8, 12);
    U32IsLittle(b[8..]);
  }

  lemma U16At(b: Buffer, i: nat)
    requires i + 2 <= |b|
    ensures GetU16(b[i..]) == b[i] + 256 * (b[i + 1] as int)
  {
    assert b[i..][0] == b[i] && b[i..][1] == b[i + 1];
  }

  lemma LabelsAreRead(b: Buffer, labels: seq<LabelRow>, i: nat, j: nat)
    requires i <= j <= |b| && TableLays(LabelLays, LabelNext, labels, 0, b[i..j])
    ensures ParseTable(DecodeLabel, b[i..], 0) == Ok(labels, b[j..])
  {
    Slices(b, i, j);
    TableAt(DecodeLabel, LabelLays, LabelNext, b[i..], labels, 0, j - i) by { LabelsExact(); }
  }

  lemma LocalsAreRead(b: Buffer, locals: seq<LocalRow>, i: nat, j: nat)
    requires i <= j <= |b| && TableLays(LocalLays, LocalNext, locals, 0, b[i..j])
    ensures ParseTable(DecodeLocal, b[i..], 0) == Ok(locals, b[j..])
  {
    Slices(b, i, j);
    TableAt(DecodeLocal, LocalLays, LocalNext, b[i..], locals, 0, j - i) by { LocalsExact(); }
  }

  lemma HeaderIsRead(f: File, b: Buffer, offset: nat)
    requires HeaderLays(f, b, offset)
    ensures b[..4] == MAGIC && GetU16(b[4..]) == VERSION && GetU16(b[6..]) == f.flags && GetU32(b[8..]) == offset
  {
    HeaderBytes(b);
  }

  /** The header and the two tables behind it. */
  lemma FrontIsRead(f: File, b: Buffer, offset: nat, s1: Buffer, s2: Buffer)
    requires 12 <= offset <= |b| && b[..4] == MAGIC && GetU16(b[4..]) == VERSION && GetU16(b[6..]) == f.flags
    requires GetU32(b[8..]) == offset && |s2| <= |b|
    requires ParseTable(DecodeLabel, b[12..], 0) == Ok(f.labels, s1)
    requires ParseTable(DecodeLocal, s1, 0) == Ok(f.locals, s2)
    ensures ParseFile(b) == ParseBody(b, f.flags, offset, f.labels, f.locals, s2)
  {
  }

  lemma LaidFileIsRead(f: File, b: Buffer, offset: nat, i: nat, j: nat, k: nat, l: nat, m: nat)
    requires FileLaysAt(f, b, offset, i, j, k, l, m)
    ensures ParseFile(b) == Ok(f, [])
  {
    LabelsAreRead(b, f.labels, 12, i);
    LocalsAreRead(b, f.locals, i, j);
    HeaderIsRead(f, b, offset);
    FrontIsRead(f, b, offset, b[i..], b[j..]);
    BodyIsRead(f, b, offset, j) by {
      StreamReads(b[j..offset], f.records);
      EditorIsRead(f, b, offset, k, l, m);
      CommentsAre(f.sidecar, f.comments);
    }
  }

  lemma BodyIsRead(f: File, b: Buffer, offset: nat, j: nat)
    requires j <= offset <= |b| && f.version == 3
    requires R.ParseStream(b[j..offset]) == Ok(f.records, []) && f.comments == CommentsOf(f.sidecar)
    requires EditorIs(b[offset..], f)
    ensures ParseBody(b, f.flags, offset, f.labels, f.locals, b[j..]) == Ok(f, [])
  {
  }

  /** What a successful ReadFile has found on its way. */
  predicate Found(b: Buffer, f: File, offset: nat, s1: Buffer, s2: Buffer) {
    HeaderLays(f, b, offset)
    && ParseTable(DecodeLabel, b[12..], 0) == Ok(f.labels, s1)
    && ParseTable(DecodeLocal, s1, 0) == Ok(f.locals, s2)
    && |s2| <= |b| && |b| - |s2| <= offset
    && FoundBehind(b, f, offset, |b| - |s2|)
  }

  predicate FoundBehind(b: Buffer, f: File, offset: nat, j: nat)
    requires j <= offset <= |b|
  {
    StreamIs(b[j..offset], f.records) && EditorIs(b[offset..], f) && f.comments == CommentsOf(f.sidecar)
  }

  predicate StreamIs(s: Buffer, rs: seq<R.Record>) {
    R.ParseStream(s).Ok? && R.ParseStream(s).value == rs
  }

  predicate EditorIs(s: Buffer, f: File) {
    var e := ParseEditor(s, f.flags % 2 == 1);
    e.Ok? && e.value == (f.names, f.globals, f.sidecar)
  }

  lemma ReadFileFinds(b: Buffer, f: File) returns (offset: nat, s1: Buffer, s2: Buffer)
    requires ParseFile(b) == Ok(f, [])
    ensures Found(b, f, offset, s1, s2)
  {
    HeaderBytes(b);
    offset := GetU32(b[8..]);
    s1 := ParseTable(DecodeLabel, b[12..], 0).rest;
    s2 := ParseTable(DecodeLocal, s1, 0).rest;
    TablesShorten(b[12..], s1);
  }

  lemma LabelsFound(b: Buffer, labels: seq<LabelRow>, i: nat, rest: Buffer) returns (j: nat)
    requires i <= |b| && ParseTable(DecodeLabel, b[i..], 0) == Ok(labels, rest)
    ensures i <= j <= |b| && rest == b[j..] && TableLays(LabelLays, LabelNext, labels, 0, b[i..j])
  {
    var n := TableFound(DecodeLabel, LabelLays, LabelNext, b[i..], 0) by { LabelsExact(); }
    j := i + n;
    Slices(b, i, j);
  }

  lemma LocalsFound(b: Buffer, locals: seq<LocalRow>, i: nat, rest: Buffer) returns (j: nat)
    requires i <= |b| && ParseTable(DecodeLocal, b[i..], 0) == Ok(locals, rest)
    ensures i <= j <= |b| && rest == b[j..] && TableLays(LocalLays, LocalNext, locals, 0, b[i..j])
  {
    var n := TableFound(DecodeLocal, LocalLays, LocalNext, b[i..], 0) by { LocalsExact(); }
    j := i + n;
    Slices(b, i, j);
  }

  lemma StreamFound(s: Buffer, rs: seq<R.Record>)
    requires StreamIs(s, rs)
    ensures RecordsLay(rs, s)
  {
    StreamRest(s);
    StreamReads(s, rs);
  }

  lemma FrontFound(b: Buffer, f: File, offset: nat, s1: Buffer, s2: Buffer, j: nat) returns (i: nat)
    requires 12 <= offset <= |b| && |b| - |s2| == j <= offset
    requires ParseTable(DecodeLabel, b[12..], 0) == Ok(f.labels, s1)
    requires ParseTable(DecodeLocal, s1, 0) == Ok(f.locals, s2)
    requires RecordsLay(f.records, b[j..offset])
    ensures FrontLays(f, b, offset, i, j)
  {
    i := LabelsFound(b, f.labels, 12, s1);
    var end := LocalsFound(b, f.locals, i, s2);
    assert end == j;
  }

  lemma FrontOf(b: Buffer, f: File, offset: nat, s1: Buffer, s2: Buffer) returns (i: nat, j: nat)
    requires Found(b, f, offset, s1, s2)
    ensures FrontLays(f, b, offset, i, j)
  {
    j := |b| - |s2|;
    StreamFound(b[j..offset], f.records);
    i := FrontFound(b, f, offset, s1, s2, j);
  }

  lemma FoundIsLaid(b: Buffer, f: File, offset: nat, s1: Buffer, s2: Buffer)
    requires Found(b, f, offset, s1, s2)
    ensures FileLays(f, b)
  {
    var i, j := FrontOf(b, f, offset, s1, s2);
    var k, l, m := ReadEditorIsLaid(b, f, offset);
    CommentsAre(f.sidecar, f.comments);
    assert FileLaysAt(f, b, offset, i, j, k, l, m);
  }

  /** ReadFile accepts exactly the files that are laid out so, and gives what is laid out. */
  lemma FileReads(b: Buffer, f: File)
    ensures ParseFile(b) == Ok(f, []) <==> FileLays(f, b)
  {
    if ParseFile(b) == Ok(f, []) {
      var offset, s1, s2 := ReadFileFinds(b, f);
      FoundIsLaid(b, f, offset, s1, s2);
    }
    if offset, i, j, k, l, m :| FileLaysAt(f, b, offset, i, j, k, l, m) {
      LaidFileIsRead(f, b, offset, i, j, k, l, m);
    }
  }

  /** What WriteFile writes is laid out so, with version 3 and flags 1, under the size limits of the format. */
  lemma FileIsLaid(names: seq<Name>, labels: seq<LabelRow>, locals: seq<LocalRow>, records: seq<R.Record>,
                   globals: seq<NameID>, sidecar: seq<SidecarRow>)
    requires |names| < 0x1_0000 && |labels| < 0x1_0000 && |locals| < 0x1_0000 && |globals| < 0x1_0000
             && |sidecar| < 0x1_0000
    requires forall n :: n in names ==> Sized(n)
    requires forall r :: r in records ==> R.Writable(r) && |R.Payload(r)| < 0x1_0000
    requires forall r :: r in sidecar ==> Fits(r) && r.anchor >= 0
    requires EditorOffset(labels, locals, R.StreamBytes(records)) < 0x1_0000_0000
    ensures var b, stable := FileBytes(names, labels, locals, R.StreamBytes(records), globals, sidecar),
                             Sort(sidecar, Anchor);
            FileLays(File(3, 1, names, Sort(labels, LabelKey), Sort(locals, LocalKey), Sort(globals, IdKey), stable,
                          CommentsOf(stable), records), b)
            && b[..8] == [0x53, 0x41, 0x36, 0x34, 3, 0, 1, 0]
  {
    FileRoundTrip(names, labels, locals, records, globals, sidecar);
    var b, stable := FileBytes(names, labels, locals, R.StreamBytes(records), globals, sidecar), Sort(sidecar, Anchor);
    var f := File(3, 1, names, Sort(labels, LabelKey), Sort(locals, LocalKey), Sort(globals, IdKey), stable,
                  CommentsOf(stable), records);
    FileReads(b, f);
    var offset, i, j, k, l, m :| FileLaysAt(f, b, offset, i, j, k, l, m);
    FirstEight(f, b, offset);
  }

  /** The header of any file: the offset of the editor region wraps at 2^32. */
  lemma HeaderIs(editorOffset: nat)
    ensures var b := Header(editorOffset);
            b[..8] == [0x53, 0x41, 0x36, 0x34, 3, 0, 1, 0] && Little(b[8..12]) == editorOffset % 0x1_0000_0000
  {
    var b, n := Header(editorOffset), editorOffset % 0x1_0000_0000;
    assert b[8..12] == U32(n) && b[8..] == U32(n) + [];
    U32RoundTrip(n, []);
    U32IsLittle(b[8..]);
    assert b[8..][..4] == b[8..12];
  }

  lemma FirstEight(f: File, b: Buffer, offset: nat)
    requires HeaderLays(f, b, offset) && f.flags == 1
    ensures b[..8] == [0x53, 0x41, 0x36, 0x34, 3, 0, 1, 0]
  {
    assert b[6] == 1 && b[7] == 0;
    assert b[4] == b[4..6][0] && b[5] == b[4..6][1];
    assert b[..8] == b[..4] + [b[4], b[5], b[6], b[7]];
  }

  /** A name is written as the length of its longest front that the name before begins with, and the rest. */
  lemma NameIsFrontCoded(name: Name, prev: Name) returns (k: nat)
    ensures k <= |name| && k <= |prev| && name[..k] == prev[..k]
    ensures k == |name| || k == |prev| || name[k] != prev[k]
    ensures EncodeName(name, prev).0 == Uvarint(k) + Uvarint(|name| - k) + name[k..]
  {
    k := CommonPrefixLen(prev, name);
  }

  /**
   * The reader panics exactly where one of the two lengths is 2^63 or more and neither is found too large as an int64:
   * it compares them signed and slices with them unsigned.
   */
  lemma NamePanics(s: Buffer, prev: Name)
    ensures DecodeName(s, prev).Panic? <==>
            GetUvarint(s).Ok? && GetUvarint(GetUvarint(s).rest).Ok?
            && var shared, suffix := GetUvarint(s).value, GetUvarint(GetUvarint(s).rest).value;
               (shared >= 0x8000_0000_0000_0000 || suffix >= 0x8000_0000_0000_0000)
               && (shared >= 0x8000_0000_0000_0000 || shared <= |prev|)
               && (suffix >= 0x8000_0000_0000_0000 || suffix <= |GetUvarint(GetUvarint(s).rest).rest|)
  {
    RoomIs64();
    GetUvarintFits(s, 0);
    if GetUvarint(s).Ok? { GetUvarintFits(GetUvarint(s).rest, 0); }
  }
}
