/** A whole .tbn file (WriteFile and ReadFile of tools/sam-aarch64-format): writing and reading back. */
module TbnFile {
  import opened Bytes
  import opened Common
  import opened StableSort
  import opened Tables
  import opened HeaderTables
  import opened EditorRegion
  import R = Records

  const MAGIC: Buffer := [0x53, 0x41, 0x36, 0x34]
  const VERSION := 3
  const FLAG_TAGGED_SIDECAR := 1
  const HEADER_LEN := 12

  datatype File = File(
    version: nat, flags: nat, names: seq<Name>, labels: seq<LabelRow>, locals: seq<LocalRow>,
    globals: seq<NameID>, sidecar: seq<SidecarRow>, comments: seq<SidecarRow>, records: seq<R.Record>)

  // ---------------------------------------------------------------- writing

  function Header(editorOffset: nat): (b: Buffer)
    ensures |b| == HEADER_LEN
  {
    MAGIC + U16(VERSION) + U16(FLAG_TAGGED_SIDECAR) + U32(editorOffset % 0x1_0000_0000)
  }

  function HeaderTablesBytes(labels: seq<LabelRow>, locals: seq<LocalRow>): Buffer {
    LabelTable(labels) + LocalTable(locals)
  }

  function EditorBytes(names: seq<Name>, globals: seq<NameID>, sidecar: seq<SidecarRow>): Buffer {
    NameTable(names) + GlobalTable(globals) + Sidecar(sidecar)
  }

  /** The offset of the editor region. */
  function EditorOffset(labels: seq<LabelRow>, locals: seq<LocalRow>, records: Buffer): nat {
    HEADER_LEN + |HeaderTablesBytes(labels, locals)| + |records|
  }

  function FileBytes(names: seq<Name>, labels: seq<LabelRow>, locals: seq<LocalRow>, records: Buffer,
                     globals: seq<NameID>, sidecar: seq<SidecarRow>): Buffer
  {
    Header(EditorOffset(labels, locals, records)) + HeaderTablesBytes(labels, locals) + records
    + EditorBytes(names, globals, sidecar)
  }

  method WriteHeaderTables(labels: seq<LabelRow>, locals: seq<LocalRow>) returns (tables: Buffer)
    ensures tables == HeaderTablesBytes(labels, locals)
  {
    tables := WriteLabelTable([], labels);
    tables := WriteLocalTable(tables, locals);
  }

  /** appendEditorRegion */
  method AppendEditorRegion(buf: Buffer, names: seq<Name>, globals: seq<NameID>, sidecar: seq<SidecarRow>)
    returns (out: Buffer)
    ensures out == buf + EditorBytes(names, globals, sidecar)
  {
    out := AppendNameTable(buf, names);
    out := AppendGlobalFlags(out, globals);
    Regroup(buf, NameTable(names), GlobalTable(globals));
    out := AppendSidecar(out, sidecar);
    Regroup(buf, NameTable(names) + GlobalTable(globals), Sidecar(sidecar));
  }

  method WriteHeader(editorOffset: nat) returns (hdr: Buffer)
    ensures hdr == Header(editorOffset)
  {
    hdr := MAGIC;
    hdr := hdr + U16(VERSION);
    hdr := hdr + U16(FLAG_TAGGED_SIDECAR);
    hdr := hdr + U32(editorOffset % 0x1_0000_0000);
  }

  method WriteFile(names: seq<Name>, labels: seq<LabelRow>, locals: seq<LocalRow>, records: Buffer,
                   globals: seq<NameID>, sidecar: seq<SidecarRow>) returns (out: Buffer)
    ensures out == FileBytes(names, labels, locals, records, globals, sidecar)
  {
    var tables := WriteHeaderTables(labels, locals);
    var editorOffset := HEADER_LEN + |tables| + |records|;
    out := WriteHeader(editorOffset);
    out := out + tables;
    out := out + records;
    var editor := AppendEditorRegion([], names, globals, sidecar);
    assert editor == EditorBytes(names, globals, sidecar);
    out := out + editor;
  }

  // ---------------------------------------------------------------- reading

  /** Names, global flags and sidecar from the tail of the file. */
  function ParseEditor(s: Buffer, tagged: bool): Parsed<(seq<Name>, seq<NameID>, seq<SidecarRow>)> {
    match ParseTable(DecodeName, s, [])
    case Err => Err
    case Panic => Panic
    case Ok(names, s1) =>
      match ParseTable(DecodeId, s1, ())
      case Err => Err
      case Panic => Panic
      case Ok(globals, s2) =>
        match ParseSidecar(s2, tagged)
        case Err => Err
        case Panic => Panic
        case Ok(sidecar, s3) => Ok((names, globals, sidecar), s3)
  }

  /** The comment rows of the sidecar, in order. */
  function CommentsOf(rows: seq<SidecarRow>): seq<SidecarRow> {
    if rows == [] then []
    else CommentsOf(rows[..|rows| - 1]) + (if rows[|rows| - 1].Comment? then [rows[|rows| - 1]] else [])
  }

  function BodyFile(flags: nat, labels: seq<LabelRow>, locals: seq<LocalRow>, records: seq<R.Record>,
                    e: (seq<Name>, seq<NameID>, seq<SidecarRow>)): File
  {
    File(VERSION, flags, e.0, labels, locals, e.1, e.2, CommentsOf(e.2), records)
  }

  /** The records and the editor region, once they are told apart. */
  function ParseTwo(stream: Buffer, editor: Buffer, flags: nat, labels: seq<LabelRow>,
                    locals: seq<LocalRow>): Parsed<File> {
    match R.ParseStream(stream)
    case Err => Err
    case Panic => Panic
    case Ok(records, _) =>
      match ParseEditor(editor, flags % 2 == 1)
      case Err => Err
      case Panic => Panic
      case Ok(e, _) => Ok(BodyFile(flags, labels, locals, records, e), [])
  }

  /** What follows the header tables, up to the editor region and from there on. */
  function ParseBody(buf: Buffer, flags: nat, editorOffset: nat, labels: seq<LabelRow>, locals: seq<LocalRow>,
                     rest: Buffer): Parsed<File>
    requires editorOffset <= |buf| && |rest| <= |buf|
  {
    var pos := |buf| - |rest|;
    if pos > editorOffset then Err
    else ParseTwo(buf[pos..editorOffset], buf[editorOffset..], flags, labels, locals)
  }

  lemma TablesShorten(s: Buffer, s1: Buffer)
    ensures ParseTable(DecodeLabel, s, 0).Ok? ==> |ParseTable(DecodeLabel, s, 0).rest| <= |s|
    ensures ParseTable(DecodeLocal, s1, 0).Ok? ==> |ParseTable(DecodeLocal, s1, 0).rest| <= |s1|
  {
    forall s, prev ensures DecodeLabel(s, prev).Ok? ==> |DecodeLabel(s, prev).rest| <= |s| {
      if |s| >= 2 { GetUvarintFits(s[2..], 0); }
    }
    forall s, prev ensures DecodeLocal(s, prev).Ok? ==> |DecodeLocal(s, prev).rest| <= |s| {
      if |s| >= 1 { GetUvarintFits(s[1..], 0); }
    }
    TableShortens(DecodeLabel, s, 0);
    TableShortens(DecodeLocal, s1, 0);
  }

  function ParseFile(buf: Buffer): Parsed<File> {
    if |buf| < HEADER_LEN then Err
    else if buf[..4] != MAGIC then Err
    else if GetU16(buf[4..]) != VERSION then Err
    else
      var flags := GetU16(buf[6..]);
      var editorOffset := GetU32(buf[8..]);
      if editorOffset < HEADER_LEN || editorOffset > |buf| then Err
      else
        match ParseTable(DecodeLabel, buf[HEADER_LEN..], 0)
        case Err => Err
        case Panic => Panic
        case Ok(labels, s1) =>
          match ParseTable(DecodeLocal, s1, 0)
          case Err => Err
          case Panic => Panic
          case Ok(locals, s2) =>
            TablesShorten(buf[HEADER_LEN..], s1);
            ParseBody(buf, flags, editorOffset, labels, locals, s2)
  }

  /** The record loop of ReadFile. */
  method ReadRecords(s: Buffer) returns (r: Parsed<seq<R.Record>>)
    ensures r == R.ParseStream(s)
  {
    var rr := new R.RecordReader(s);
    var records: seq<R.Record> := [];
    assert AfterRecords([], R.ParseStream(s)) == R.ParseStream(s) by {
      if R.ParseStream(s).Ok? { assert [] + R.ParseStream(s).value == R.ParseStream(s).value; }
    }
    assert s[0..] == s;
    while !rr.AtEnd()
      invariant rr.buf == s && rr.pos <= |s|
      invariant R.ParseStream(s) == AfterRecords(records, R.ParseStream(s[rr.pos..]))
      decreases |s| - rr.pos
    {
      ghost var from := s[rr.pos..];
      var one := rr.Next();
      match one {
        case Err => return Err;
        case Panic => return Panic;
        case Ok(rec, more) =>
          ghost var tail := R.ParseStream(more);
          if tail.Ok? { assert records + ([rec] + tail.value) == (records + [rec]) + tail.value; }
          records := records + [rec];
      }
    }
    assert records + [] == records;
    return Ok(records, []);
  }

  function AfterRecords(done: seq<R.Record>, r: Parsed<seq<R.Record>>): Parsed<seq<R.Record>> {
    match r
    case Ok(rs, rest) => Ok(done + rs, rest)
    case other => other
  }

  /** The comment-only projection of the sidecar. */
  method ProjectComments(rows: seq<SidecarRow>) returns (comments: seq<SidecarRow>)
    ensures comments == CommentsOf(rows)
  {
    comments := [];
    var i := 0;
    while i < |rows|
      invariant 0 <= i <= |rows| && comments == CommentsOf(rows[..i])
    {
      assert rows[..i + 1][..i] == rows[..i];
      if rows[i].Comment? {
        comments := comments + [rows[i]];
      }
      i := i + 1;
    }
    assert rows[..i] == rows;
  }

  method ReadEditorRegion(s: Buffer, tagged: bool) returns (r: Parsed<(seq<Name>, seq<NameID>, seq<SidecarRow>)>)
    ensures r == ParseEditor(s, tagged)
  {
    var names := ReadNameTable(s);
    if names.Err? { return Err; }
    if names.Panic? { return Panic; }
    var globals := ReadGlobalFlags(names.rest);
    if globals.Err? { return Err; }
    if globals.Panic? { return Panic; }
    var sidecar := ReadSidecar(globals.rest, tagged);
    if sidecar.Err? { return Err; }
    if sidecar.Panic? { return Panic; }
    return Ok((names.value, globals.value, sidecar.value), sidecar.rest);
  }

  method ReadFile(buf: Buffer) returns (r: Parsed<File>)
    ensures r == ParseFile(buf)
  {
    if |buf| < HEADER_LEN { return Err; }
    if buf[..4] != MAGIC { return Err; }
    var version := GetU16(buf[4..]);
    if version != VERSION { return Err; }
    var flags := GetU16(buf[6..]);
    var editorOffset := GetU32(buf[8..]);
    if editorOffset < HEADER_LEN || editorOffset > |buf| { return Err; }
    var labels := ReadLabelTable(buf[HEADER_LEN..]);
    if labels.Err? { return Err; }
    if labels.Panic? { return Panic; }
    var locals := ReadLocalTable(labels.rest);
    if locals.Err? { return Err; }
    if locals.Panic? { return Panic; }
    TablesShorten(buf[HEADER_LEN..], labels.rest);
    r := ReadBody(buf, flags, editorOffset, labels.value, locals.value, locals.rest);
  }

  method ReadBody(buf: Buffer, flags: nat, editorOffset: nat, labels: seq<LabelRow>, locals: seq<LocalRow>,
                  rest: Buffer)
      returns (r: Parsed<File>)
    requires editorOffset <= |buf| && |rest| <= |buf|
    ensures r == ParseBody(buf, flags, editorOffset, labels, locals, rest)
  {
    var pos := |buf| - |rest|;
    if pos > editorOffset { return Err; }
    var records := ReadRecords(buf[pos..editorOffset]);
    if records.Err? { return Err; }
    if records.Panic? { return Panic; }
    var editor := ReadEditorRegion(buf[editorOffset..], flags % 2 == 1);
    if editor.Err? { return Err; }
    if editor.Panic? { return Panic; }
    var (names, globals, sidecar) := editor.value;
    var comments := ProjectComments(sidecar);
    return Ok(File(VERSION, flags, names, labels, locals, globals, sidecar, comments, records.value), []);
  }

  // ---------------------------------------------------------------- the round trip

  lemma EditorRoundTrip(names: seq<Name>, globals: seq<NameID>, sidecar: seq<SidecarRow>)
    requires |names| < 0x1_0000 && forall n :: n in names ==> Sized(n)
    requires |globals| < 0x1_0000
    requires |sidecar| < 0x1_0000 && forall r :: r in sidecar ==> Fits(r) && r.anchor >= 0
    ensures ParseEditor(EditorBytes(names, globals, sidecar), true)
            == Ok((names, Sort(globals, IdKey), Sort(sidecar, Anchor)), [])
  {
    var tail := Sidecar(sidecar);
    Regroup(NameTable(names), GlobalTable(globals), tail);
    NamesRoundTrip(names, GlobalTable(globals) + tail);
    GlobalsRoundTrip(globals, tail);
    assert tail + [] == tail;
    SidecarRoundTrip(sidecar, []);
  }

  lemma Cut(a: Buffer, b: Buffer)
    ensures (a + b)[..|a|] == a && (a + b)[|a|..] == b
  {
  }

  lemma HeaderGrouped(editorOffset: nat, rest: Buffer)
    requires editorOffset < 0x1_0000_0000
    ensures Header(editorOffset) + rest
            == MAGIC + (U16(VERSION) + (U16(FLAG_TAGGED_SIDECAR) + (U32(editorOffset) + rest)))
  {
    var v, f, o := U16(VERSION), U16(FLAG_TAGGED_SIDECAR), U32(editorOffset);
    Regroup(MAGIC + v + f, o, rest);
    Regroup(MAGIC + v, f, o + rest);
    Regroup(MAGIC, v, f + (o + rest));
  }

  lemma DropTwice(s: Buffer, i: nat, j: nat)
    requires i + j <= |s|
    ensures s[i..][j..] == s[i + j..]
  {
  }

  lemma HeaderParts(editorOffset: nat, rest: Buffer)
    requires editorOffset < 0x1_0000_0000
    ensures var s := Header(editorOffset) + rest;
            var flags := U16(FLAG_TAGGED_SIDECAR) + (U32(editorOffset) + rest);
            s[..4] == MAGIC && s[4..] == U16(VERSION) + flags && s[6..] == flags && s[8..] == U32(editorOffset) + rest
            && s[HEADER_LEN..] == rest
  {
    var s := Header(editorOffset) + rest;
    var offset := U32(editorOffset) + rest;
    var flags := U16(FLAG_TAGGED_SIDECAR) + offset;
    HeaderGrouped(editorOffset, rest);
    Cut(MAGIC, U16(VERSION) + flags);
    Cut(U16(VERSION), flags);
    Cut(U16(FLAG_TAGGED_SIDECAR), offset);
    DropTwice(s, 4, 2);
    DropTwice(s, 6, 2);
    Cut(Header(editorOffset), rest);
  }

  lemma HeaderRoundTrip(editorOffset: nat, rest: Buffer)
    requires editorOffset < 0x1_0000_0000
    ensures var s := Header(editorOffset) + rest;
            s[..4] == MAGIC && GetU16(s[4..]) == VERSION && GetU16(s[6..]) == FLAG_TAGGED_SIDECAR
            && GetU32(s[8..]) == editorOffset && s[HEADER_LEN..] == rest
  {
    var tail := U32(editorOffset) + rest;
    HeaderParts(editorOffset, rest);
    U16RoundTrip(VERSION, U16(FLAG_TAGGED_SIDECAR) + tail);
    U16RoundTrip(FLAG_TAGGED_SIDECAR, tail);
    U32RoundTrip(editorOffset, rest);
  }

  lemma MiddleAndEnd(front: Buffer, stream: Buffer, editor: Buffer)
    ensures var buf := front + stream + editor;
            buf[|front|..|front| + |stream|] == stream && buf[|front| + |stream|..] == editor
  {
  }

  lemma BodyRoundTrip(front: Buffer, stream: Buffer, editor: Buffer, labels: seq<LabelRow>, locals: seq<LocalRow>)
    ensures ParseBody(front + stream + editor, FLAG_TAGGED_SIDECAR, |front| + |stream|, labels, locals, stream + editor)
            == ParseTwo(stream, editor, FLAG_TAGGED_SIDECAR, labels, locals)
  {
    MiddleAndEnd(front, stream, editor);
  }

  /** The front of the file: what ReadFile does before the records. */
  lemma FrontRoundTrip(labels: seq<LabelRow>, locals: seq<LocalRow>, offset: nat, body: Buffer)
    requires |labels| < 0x1_0000 && |locals| < 0x1_0000 && HEADER_LEN <= offset < 0x1_0000_0000
    requires offset <= HEADER_LEN + |HeaderTablesBytes(labels, locals)| + |body|
    ensures var buf := Header(offset) + (HeaderTablesBytes(labels, locals) + body);
            ParseFile(buf) == ParseBody(buf, FLAG_TAGGED_SIDECAR, offset, Sort(labels, LabelKey), Sort(locals,
              LocalKey), body)
  {
    var rest := LabelTable(labels) + (LocalTable(locals) + body);
    Regroup(LabelTable(labels), LocalTable(locals), body);
    HeaderRoundTrip(offset, rest);
    LabelsRoundTrip(labels, LocalTable(locals) + body);
    LocalsRoundTrip(locals, body);
  }

  /**
   * Reading a written file gives the same names and records, the labels, locals and globals in their one sorted
   * order, and the sidecar in stable anchor order with its comments -- under the size limits of the format, for
   * non-negative anchors.
   */
  lemma FileRoundTrip(names: seq<Name>, labels: seq<LabelRow>, locals: seq<LocalRow>, records: seq<R.Record>,
                      globals: seq<NameID>, sidecar: seq<SidecarRow>)
    requires |names| < 0x1_0000 && |labels| < 0x1_0000 && |locals| < 0x1_0000 && |globals| < 0x1_0000
             && |sidecar| < 0x1_0000
    requires forall n :: n in names ==> Sized(n)
    requires forall r :: r in records ==> R.Writable(r) && |R.Payload(r)| < 0x1_0000
    requires forall r :: r in sidecar ==> Fits(r) && r.anchor >= 0
    requires EditorOffset(labels, locals, R.StreamBytes(records)) < 0x1_0000_0000
    ensures var stable := Sort(sidecar, Anchor);
            ParseFile(FileBytes(names, labels, locals, R.StreamBytes(records), globals, sidecar))
            == Ok(File(VERSION, FLAG_TAGGED_SIDECAR, names, Sort(labels, LabelKey), Sort(locals, LocalKey),
                       Sort(globals, IdKey), stable, CommentsOf(stable), records), [])
  {
    var stream, editor := R.StreamBytes(records), EditorBytes(names, globals, sidecar);
    var offset := EditorOffset(labels, locals, stream);
    var buf := FileBytes(names, labels, locals, stream, globals, sidecar);
    var front := Header(offset) + HeaderTablesBytes(labels, locals);
    Regroup(front, stream, editor);
    Regroup(Header(offset), HeaderTablesBytes(labels, locals), stream + editor);
    FrontRoundTrip(labels, locals, offset, stream + editor);
    R.StreamRoundTrip(records);
    EditorRoundTrip(names, globals, sidecar);
    BodyRoundTrip(front, stream, editor, Sort(labels, LabelKey), Sort(locals, LocalKey));
  }
}
