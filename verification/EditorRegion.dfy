/** The editor region (tools/sam-aarch64-format/editor_region.go): front-coded names, global flags, and the sidecar
    of comments and blank-line runs. */
module EditorRegion {
  import opened Bytes
  import opened Common
  import opened StableSort
  import opened Tables
  import opened HeaderTables

  // ---------------------------------------------------------------- names

  type Name = Buffer

  function CommonPrefixLen(a: Name, b: Name): (n: nat)
    ensures n <= |a| && n <= |b| && a[..n] == b[..n]
    ensures n < |a| && n < |b| ==> a[n] != b[n]
  {
    if a == [] || b == [] || a[0] != b[0] then 0
    else
      var n := CommonPrefixLen(a[1..], b[1..]);
      assert a[..n + 1] == [a[0]] + a[1..][..n] && b[..n + 1] == [b[0]] + b[1..][..n];
      n + 1
  }

  function EncodeName(n: Name, prev: Name): (Buffer, Name) {
    var shared := CommonPrefixLen(prev, n);
    (Uvarint(shared) + Uvarint(|n| - shared) + n[shared..], n)
  }

  /** Lengths from the file are taken for int64; one of 2^63 or more passes the checks and then breaks the slicing. */
  function DecodeName(s: Buffer, prev: Name): Parsed<(Name, Name)> {
    match GetDelta(s)
    case Err => Err
    case Panic => Panic
    case Ok(shared, s1) =>
      match GetDelta(s1)
      case Err => Err
      case Panic => Panic
      case Ok(suffix, s2) =>
        if shared > |prev| then Err
        else if suffix > |s2| then Err
        else if shared < 0 || suffix < 0 then Panic
        else
          var name := prev[..shared] + s2[..suffix];
          Ok((name, name), s2[suffix..])
  }

  /** A length as Go has it. */
  predicate Sized(n: Name) { |n| < 0x8000_0000_0000_0000 }

  lemma LengthIsRead(n: nat, rest: Buffer)
    requires n < 0x8000_0000_0000_0000
    ensures GetDelta(Uvarint(n) + rest) == Ok(n, rest)
  {
    UvarintRoundTrip(n, rest);
  }

  /** A name is rebuilt from the one before it. */
  lemma NameReadsBack(n: Name, prev: Name, rest: Buffer)
    requires Sized(n)
    ensures ReadsBack(EncodeName, DecodeName, n, prev, rest)
  {
    var shared := CommonPrefixLen(prev, n);
    var tail := n[shared..] + rest;
    var s1 := Uvarint(|n| - shared) + tail;
    assert EncodeName(n, prev).0 + rest == Uvarint(shared) + s1;
    LengthIsRead(shared, s1);
    LengthIsRead(|n| - shared, tail);
    assert tail[..|n| - shared] == n[shared..] && tail[|n| - shared..] == rest;
    assert prev[..shared] + n[shared..] == n[..shared] + n[shared..] == n;
  }

  lemma {:induction false} NamesReadBack(names: seq<Name>, prev: Name)
    requires forall n :: n in names ==> Sized(n)
    ensures AllReadBack(EncodeName, DecodeName, names, prev)
  {
    if names != [] {
      forall rest ensures ReadsBack(EncodeName, DecodeName, names[0], prev, rest) {
        NameReadsBack(names[0], prev, rest);
      }
      NamesReadBack(names[1..], names[0]);
    }
  }

  function NameTable(names: seq<Name>): Buffer {
    TableBytes(EncodeName, names, [])
  }

  method AppendNameTable(buf: Buffer, names: seq<Name>) returns (out: Buffer)
    ensures out == buf + NameTable(names)
  {
    out := AppendRows(buf, EncodeName, names, []);
  }

  method ReadNameTable(s: Buffer) returns (r: Parsed<seq<Name>>)
    ensures r == ParseTable(DecodeName, s, [])
  {
    r := ReadRows(DecodeName, s, []);
  }

  /** Names keep their order, so ids stay valid. */
  lemma NamesRoundTrip(names: seq<Name>, rest: Buffer)
    requires |names| < 0x1_0000 && forall n :: n in names ==> Sized(n)
    ensures ParseTable(DecodeName, NameTable(names) + rest, []) == Ok(names, rest)
  {
    NamesReadBack(names, []);
    TableRoundTrip(EncodeName, DecodeName, names, [], rest);
  }

  // ---------------------------------------------------------------- global flags

  function IdKey(id: NameID): int { id }

  function EncodeId(id: NameID, st: ()): (Buffer, ()) { (U16(id), ()) }

  function DecodeId(s: Buffer, st: ()): Parsed<(NameID, ())> {
    if |s| < 2 then Err else Ok((GetU16(s), ()), s[2..])
  }

  lemma {:induction false} IdsReadBack(ids: seq<NameID>)
    ensures AllReadBack(EncodeId, DecodeId, ids, ())
  {
    if ids != [] {
      forall rest ensures ReadsBack(EncodeId, DecodeId, ids[0], (), rest) {
        U16RoundTrip(ids[0], rest);
      }
      IdsReadBack(ids[1..]);
    }
  }

  function GlobalTable(ids: seq<NameID>): Buffer {
    TableBytes(EncodeId, Sort(ids, IdKey), ())
  }

  method AppendGlobalFlags(buf: Buffer, ids: seq<NameID>) returns (out: Buffer)
    ensures out == buf + GlobalTable(ids)
  {
    out := AppendRows(buf, EncodeId, Sort(ids, IdKey), ());
  }

  method ReadGlobalFlags(s: Buffer) returns (r: Parsed<seq<NameID>>)
    ensures r == ParseTable(DecodeId, s, ())
  {
    r := ReadRows(DecodeId, s, ());
  }

  lemma GlobalsRoundTrip(ids: seq<NameID>, rest: Buffer)
    requires |ids| < 0x1_0000
    ensures ParseTable(DecodeId, GlobalTable(ids) + rest, ()) == Ok(Sort(ids, IdKey), rest)
  {
    IdsReadBack(Sort(ids, IdKey));
    TableRoundTrip(EncodeId, DecodeId, Sort(ids, IdKey), (), rest);
  }

  // ---------------------------------------------------------------- the sidecar

  type Uint32 = n: int | 0 <= n < 0x1_0000_0000

  datatype SidecarRow =
    | Comment(anchor: Int64, placement: Byte, body: Buffer)
    | Blank(anchor: Int64, runLen: Uint32)

  function Anchor(r: SidecarRow): int { r.anchor }

  /** A negative difference is written as 0. */
  function EncodeSidecar(r: SidecarRow, prev: Int64): (Buffer, Int64) {
    var d := Wrap(r.anchor - prev);
    var delta := Uvarint(AsUint64(if d < 0 then 0 else d));
    match r
    case Blank(_, runLen) => ([1] + delta + Uvarint(runLen), r.anchor)
    case Comment(_, placement, body) => ([0] + delta + [placement] + U16(|body|) + body, r.anchor)
  }

  function DecodeComment(s: Buffer, anchor: Int64): Parsed<(SidecarRow, Int64)> {
    if |s| < 1 then Err
    else if |s| < 3 then Err
    else
      var len := GetU16(s[1..]);
      if |s| < 3 + len then Err else Ok((Comment(anchor, s[0], s[3..3 + len]), anchor), s[3 + len..])
  }

  /** The row without its kind byte. */
  function DecodeTail(kind: Byte, s: Buffer, prev: Int64): Parsed<(SidecarRow, Int64)> {
    match GetDelta(s)
    case Err => Err
    case Panic => Panic
    case Ok(d, s1) =>
      var anchor := Wrap(prev + d);
      if kind == 1 then
        match GetUvarint(s1)
        case Err => Err
        case Panic => Panic
        case Ok(runLen, s2) => Ok((Blank(anchor, runLen % 0x1_0000_0000), anchor), s2)
      else if kind == 0 then DecodeComment(s1, anchor)
      else Err
  }

  function DecodeTagged(s: Buffer, prev: Int64): Parsed<(SidecarRow, Int64)> {
    if |s| < 1 then Err else DecodeTail(s[0], s[1..], prev)
  }

  /** A file without the tagged-sidecar flag: every row is a comment. */
  function DecodeUntagged(s: Buffer, prev: Int64): Parsed<(SidecarRow, Int64)> {
    DecodeTail(0, s, prev)
  }

  predicate Fits(r: SidecarRow) {
    r.Comment? ==> |r.body| < 0x1_0000
  }

  lemma CommentReadsBack(r: SidecarRow, rest: Buffer)
    requires r.Comment? && Fits(r)
    ensures DecodeComment([r.placement] + U16(|r.body|) + r.body + rest, r.anchor) == Ok((r, r.anchor), rest)
  {
    var s := [r.placement] + U16(|r.body|) + r.body + rest;
    assert s[1..] == U16(|r.body|) + (r.body + rest);
    U16RoundTrip(|r.body|, r.body + rest);
    assert s[3..3 + |r.body|] == r.body && s[3 + |r.body|..] == rest;
  }

  lemma BlankReadsBack(r: SidecarRow, prev: Int64, rest: Buffer)
    requires r.Blank? && 0 <= prev <= r.anchor
    ensures ReadsBack(EncodeSidecar, DecodeTagged, r, prev, rest)
  {
    var d, tail := Delta(r.anchor, prev), Uvarint(r.runLen) + rest;
    var s := EncodeSidecar(r, prev).0 + rest;
    assert s == [1] + (d + tail);
    assert s[1..] == d + tail;
    DeltaIsRead(r.anchor, prev, tail);
    UvarintRoundTrip(r.runLen, rest);
  }

  lemma SidecarReadsBack(r: SidecarRow, prev: Int64, rest: Buffer)
    requires Fits(r) && 0 <= prev <= r.anchor
    ensures ReadsBack(EncodeSidecar, DecodeTagged, r, prev, rest)
  {
    if r.Blank? {
      BlankReadsBack(r, prev, rest);
    } else {
      var d, tail := Delta(r.anchor, prev), [r.placement] + U16(|r.body|) + r.body + rest;
      var s := EncodeSidecar(r, prev).0 + rest;
      assert s == [0] + (d + tail);
      assert s[1..] == d + tail;
      DeltaIsRead(r.anchor, prev, tail);
      CommentReadsBack(r, rest);
    }
  }

  lemma {:induction false} SidecarsReadBack(rows: seq<SidecarRow>, prev: Int64)
    requires (forall r :: r in rows ==> Fits(r)) && Sorted(rows, Anchor) && prev >= 0
    requires rows != [] ==> prev <= rows[0].anchor
    ensures AllReadBack(EncodeSidecar, DecodeTagged, rows, prev)
  {
    if rows != [] {
      forall rest ensures ReadsBack(EncodeSidecar, DecodeTagged, rows[0], prev, rest) {
        SidecarReadsBack(rows[0], prev, rest);
      }
      if |rows| > 1 {
        assert Anchor(rows[0]) <= Anchor(rows[1]);
      }
      SidecarsReadBack(rows[1..], rows[0].anchor);
    }
  }

  function Sidecar(rows: seq<SidecarRow>): Buffer {
    TableBytes(EncodeSidecar, Sort(rows, Anchor), 0)
  }

  method AppendSidecar(buf: Buffer, rows: seq<SidecarRow>) returns (out: Buffer)
    ensures out == buf + Sidecar(rows)
  {
    out := AppendRows(buf, EncodeSidecar, Sort(rows, Anchor), 0);
  }

  function ParseSidecar(s: Buffer, tagged: bool): Parsed<seq<SidecarRow>> {
    if tagged then ParseTable(DecodeTagged, s, 0) else ParseTable(DecodeUntagged, s, 0)
  }

  method ReadSidecar(s: Buffer, tagged: bool) returns (r: Parsed<seq<SidecarRow>>)
    ensures r == ParseSidecar(s, tagged)
  {
    if tagged {
      r := ReadRows(DecodeTagged, s, 0);
    } else {
      r := ReadRows(DecodeUntagged, s, 0);
    }
  }

  /** Comments and blank runs come back in anchor order, rows at one anchor in the order they were given. */
  lemma SidecarRoundTrip(rows: seq<SidecarRow>, rest: Buffer)
    requires |rows| < 0x1_0000 && forall r :: r in rows ==> Fits(r) && r.anchor >= 0
    ensures ParseSidecar(Sidecar(rows) + rest, true) == Ok(Sort(rows, Anchor), rest)
  {
    var sorted := Sort(rows, Anchor);
    SortIsStable(rows, Anchor);
    forall r | r in sorted ensures Fits(r) && r.anchor >= 0 { assert r in multiset(sorted); }
    SidecarsReadBack(sorted, 0);
    TableRoundTrip(EncodeSidecar, DecodeTagged, sorted, 0, rest);
  }

  /** The first anchor, when negative, is read as 0. */
  lemma NegativeAnchorLost(r: SidecarRow, rest: Buffer)
    requires Fits(r) && r.anchor < 0
    ensures var zeroed := r.(anchor := 0);
            DecodeTagged(EncodeSidecar(r, 0).0 + rest, 0) == Ok((zeroed, 0), rest)
  {
    var zeroed := r.(anchor := 0);
    assert EncodeSidecar(r, 0).0 == EncodeSidecar(zeroed, 0).0;
    SidecarReadsBack(zeroed, 0, rest);
  }

  lemma NegativeIsNotReadBack(sorted: seq<SidecarRow>, rest: Buffer)
    requires 0 < |sorted| < 0x1_0000 && Fits(sorted[0]) && sorted[0].anchor < 0
    ensures ParseSidecar(TableBytes(EncodeSidecar, sorted, 0) + rest, true) != Ok(sorted, rest)
  {
    var r := sorted[0];
    var more := RowsBytes(EncodeSidecar, sorted[1..], r.anchor) + rest;
    var first := EncodeSidecar(r, 0).0;
    var s := TableBytes(EncodeSidecar, sorted, 0) + rest;
    Regroup(U16(|sorted|), RowsBytes(EncodeSidecar, sorted, 0), rest);
    Regroup(first, RowsBytes(EncodeSidecar, sorted[1..], r.anchor), rest);
    U16RoundTrip(|sorted|, first + more);
    NegativeAnchorLost(r, more);
    FirstRow(DecodeTagged, s, 0, r.(anchor := 0), 0, more);
  }

  lemma LeastComesFirst(rows: seq<SidecarRow>, sorted: seq<SidecarRow>, r: SidecarRow)
    requires multiset(sorted) == multiset(rows) && Sorted(sorted, Anchor) && r in rows && r.anchor < 0
    ensures sorted != [] && sorted[0] in rows && sorted[0].anchor < 0
  {
    assert r in multiset(sorted);
    var i: nat :| i < |sorted| && sorted[i] == r;
    assert Anchor(sorted[0]) <= Anchor(sorted[i]);
    assert sorted[0] in multiset(sorted);
  }

  /** Exactly the sidecars without negative anchors survive. */
  lemma SidecarSurvives(rows: seq<SidecarRow>, rest: Buffer)
    requires |rows| < 0x1_0000 && forall r :: r in rows ==> Fits(r)
    ensures ParseSidecar(Sidecar(rows) + rest, true) == Ok(Sort(rows, Anchor), rest)
            <==> forall r :: r in rows ==> r.anchor >= 0
  {
    var sorted := Sort(rows, Anchor);
    SortIsStable(rows, Anchor);
    if r :| r in rows && r.anchor < 0 {
      LeastComesFirst(rows, sorted, r);
      NegativeIsNotReadBack(sorted, rest);
    } else {
      SidecarRoundTrip(rows, rest);
    }
  }
}
