/** The record stream of a .tbn file (tools/sam-aarch64-format/writer.go, reader.go). */
module Records {
  import opened Bytes

  type Uint32 = n: int | 0 <= n < 0x1_0000_0000

  /** One relocated field: a slot and the expression that is folded into it. */
  datatype Patch = Patch(slot: Byte, expr: Buffer)

  datatype Element = Element(baseWord: Uint32, patches: seq<Patch>)

  datatype Record =
    | Comment(placement: Byte, body: Buffer)
    | Directive(directiveID: Byte, operandCount: Byte, operands: Buffer)
    | LitData(directiveID: Byte, raw: Buffer)
    | InsnRun(mode: Byte, elements: seq<Element>)
    | Other(kind: Byte, payload: Buffer)

  const KIND_DIRECTIVE: Byte := 4
  const KIND_COMMENT: Byte := 5
  const KIND_LIT_DATA: Byte := 8
  const KIND_INSN_RUN: Byte := 9

  /** The expr_len nibble that says a length byte follows. */
  const EXPR_LEN_ESCAPE: Byte := 15

  function Kind(r: Record): Byte {
    match r
    case Comment(_, _) => KIND_COMMENT
    case Directive(_, _, _) => KIND_DIRECTIVE
    case LitData(_, _) => KIND_LIT_DATA
    case InsnRun(_, _) => KIND_INSN_RUN
    case Other(kind, _) => kind
  }

  // ---------------------------------------------------------------- what is written

  /** The conditions under which WriteInsnRun does not panic. */
  predicate GoodPatch(p: Patch) {
    0 < p.slot <= 15 && |p.expr| <= 255
  }

  predicate GoodElement(e: Element, mode: Byte) {
    if mode == 0 then e.patches == [] else |e.patches| <= 255 && forall p :: p in e.patches ==> GoodPatch(p)
  }

  predicate Writable(r: Record) {
    match r
    case InsnRun(mode, elements) => mode <= 1 && forall e :: e in elements ==> GoodElement(e, mode)
    case Other(kind, _) => kind != KIND_COMMENT && kind != KIND_DIRECTIVE && kind != KIND_LIT_DATA
      && kind != KIND_INSN_RUN
    case _ => true
  }

  function PatchBytes(p: Patch): Buffer
    requires GoodPatch(p)
  {
    if |p.expr| < EXPR_LEN_ESCAPE then [p.slot * 16 + |p.expr|] + p.expr
    else [p.slot * 16 + EXPR_LEN_ESCAPE, |p.expr|] + p.expr
  }

  function PatchesBytes(ps: seq<Patch>): Buffer
    requires forall p :: p in ps ==> GoodPatch(p)
  {
    if ps == [] then [] else PatchBytes(ps[0]) + PatchesBytes(ps[1..])
  }

  function ElementBytes(e: Element, mode: Byte): Buffer
    requires GoodElement(e, mode)
  {
    if mode == 0 then U32(e.baseWord) else U32(e.baseWord) + [|e.patches|] + PatchesBytes(e.patches)
  }

  function ElementsBytes(es: seq<Element>, mode: Byte): Buffer
    requires forall e :: e in es ==> GoodElement(e, mode)
  {
    if es == [] then [] else ElementBytes(es[0], mode) + ElementsBytes(es[1..], mode)
  }

  function Payload(r: Record): Buffer
    requires Writable(r)
  {
    match r
    case Comment(placement, body) => [placement] + body
    case Directive(id, count, operands) => [id, count] + operands
    case LitData(id, raw) => [id] + raw
    case InsnRun(mode, elements) => [mode] + ElementsBytes(elements, mode)
    case Other(_, payload) => payload
  }

  /** The payload length is a uint16: it wraps. */
  function RecordBytes(r: Record): Buffer
    requires Writable(r)
  {
    [Kind(r)] + U16(|Payload(r)|) + Payload(r)
  }

  function StreamBytes(rs: seq<Record>): Buffer
    requires forall r :: r in rs ==> Writable(r)
  {
    if rs == [] then [] else RecordBytes(rs[0]) + StreamBytes(rs[1..])
  }

  // ---------------------------------------------------------------- what is read

  function ParsePatch(s: Buffer): Parsed<Patch> {
    if |s| < 1 then Err
    else
      var slot, nibble := s[0] / 16, s[0] % 16;
      if nibble == EXPR_LEN_ESCAPE then
        if |s| < 2 then Err
        else if |s| < 2 + s[1] as int then Err
        else Ok(Patch(slot, s[2..2 + s[1] as int]), s[2 + s[1] as int..])
      else if |s| < 1 + nibble then Err
      else Ok(Patch(slot, s[1..1 + nibble]), s[1 + nibble..])
  }

  function ParsePatches(s: Buffer, count: nat): Parsed<seq<Patch>>
    decreases count
  {
    if count == 0 then Ok([], s)
    else
      match ParsePatch(s)
      case Ok(p, s1) =>
        (match ParsePatches(s1, count - 1)
         case Ok(ps, rest) => Ok([p] + ps, rest)
         case other => other)
      case Err => Err
      case Panic => Panic
  }

  function ParseElement(s: Buffer, mode: Byte): Parsed<Element> {
    if mode == 0 then
      if |s| < 4 then Err else Ok(Element(GetU32(s), []), s[4..])
    else if |s| < 5 then Err
    else
      match ParsePatches(s[5..], s[4])
      case Ok(ps, rest) => Ok(Element(GetU32(s), ps), rest)
      case Err => Err
      case Panic => Panic
  }

  lemma {:induction false} PatchesShorten(s: Buffer, count: nat)
    ensures var r := ParsePatches(s, count);
            r.Ok? ==> |r.rest| <= |s|
    decreases count
  {
    if count > 0 {
      var p := ParsePatch(s);
      if p.Ok? {
        PatchesShorten(p.rest, count - 1);
      }
    }
  }

  lemma ElementShortens(s: Buffer, mode: Byte)
    ensures var r := ParseElement(s, mode);
            r.Ok? ==> |r.rest| < |s|
  {
    if |s| >= 5 { PatchesShorten(s[5..], s[4]); }
  }

  /** Elements to the end of the payload. */
  function ParseElements(s: Buffer, mode: Byte): Parsed<seq<Element>>
    decreases |s|
  {
    if s == [] then Ok([], [])
    else
      ElementShortens(s, mode);
      match ParseElement(s, mode)
      case Ok(e, s1) =>
        (match ParseElements(s1, mode)
         case Ok(es, rest) => Ok([e] + es, rest)
         case other => other)
      case Err => Err
      case Panic => Panic
  }

  datatype Decoded = Decoded(r: Record) | Malformed

  function DecodeRun(payload: Buffer): Decoded {
    if |payload| < 1 then Malformed
    else if payload[0] > 1 then Malformed
    else if payload[0] == 0 && |payload[1..]| % 4 != 0 then Malformed
    else
      match ParseElements(payload[1..], payload[0])
      case Ok(es, _) => Decoded(InsnRun(payload[0], es))
      case _ => Malformed
  }

  function DecodePayload(kind: Byte, payload: Buffer): Decoded {
    if kind == KIND_COMMENT then
      if |payload| < 1 then Malformed else Decoded(Comment(payload[0], payload[1..]))
    else if kind == KIND_DIRECTIVE then
      if |payload| < 2 then Malformed else Decoded(Directive(payload[0], payload[1], payload[2..]))
    else if kind == KIND_LIT_DATA then
      if |payload| < 1 then Malformed else Decoded(LitData(payload[0], payload[1..]))
    else if kind == KIND_INSN_RUN then DecodeRun(payload)
    else Decoded(Other(kind, payload))
  }

  function ParseRecord(s: Buffer): Parsed<Record> {
    if |s| < 3 then Err
    else
      var length := GetU16(s[1..]);
      if |s| < 3 + length then Err
      else
        match DecodePayload(s[0], s[3..3 + length])
        case Decoded(r) => Ok(r, s[3 + length..])
        case Malformed => Err
  }

  function ParseStream(s: Buffer): Parsed<seq<Record>>
    decreases |s|
  {
    if s == [] then Ok([], [])
    else
      match ParseRecord(s)
      case Ok(r, s1) =>
        (match ParseStream(s1)
         case Ok(rs, rest) => Ok([r] + rs, rest)
         case other => other)
      case Err => Err
      case Panic => Panic
  }

  // ---------------------------------------------------------------- round trips

  /** Inline lengths and the escape are read alike. */
  lemma PatchRoundTrip(p: Patch, rest: Buffer)
    requires GoodPatch(p)
    ensures ParsePatch(PatchBytes(p) + rest) == Ok(p, rest)
  {
    var s := PatchBytes(p) + rest;
    if |p.expr| < EXPR_LEN_ESCAPE {
      assert s[0] / 16 == p.slot && s[0] % 16 == |p.expr|;
      assert s[1..1 + |p.expr|] == p.expr && s[1 + |p.expr|..] == rest;
    } else {
      assert s[0] / 16 == p.slot && s[0] % 16 == EXPR_LEN_ESCAPE && s[1] == |p.expr|;
      assert s[2..2 + |p.expr|] == p.expr && s[2 + |p.expr|..] == rest;
    }
  }

  lemma FirstPatch(s: Buffer, p: Patch, s1: Buffer, ps: seq<Patch>, rest: Buffer)
    requires ParsePatch(s) == Ok(p, s1) && ParsePatches(s1, |ps|) == Ok(ps, rest)
    ensures ParsePatches(s, 1 + |ps|) == Ok([p] + ps, rest)
  {
  }

  lemma {:induction false} PatchesRoundTrip(ps: seq<Patch>, rest: Buffer)
    requires forall p :: p in ps ==> GoodPatch(p)
    ensures ParsePatches(PatchesBytes(ps) + rest, |ps|) == Ok(ps, rest)
  {
    if ps == [] {
      assert PatchesBytes(ps) + rest == rest;
    } else {
      var tail := PatchesBytes(ps[1..]) + rest;
      Regroup(PatchBytes(ps[0]), PatchesBytes(ps[1..]), rest);
      PatchRoundTrip(ps[0], tail);
      PatchesRoundTrip(ps[1..], rest);
      FirstPatch(PatchBytes(ps[0]) + tail, ps[0], tail, ps[1..], rest);
      assert [ps[0]] + ps[1..] == ps;
    }
  }

  lemma OverlayFront(base: Uint32, n: Byte, tail: Buffer)
    ensures var s := U32(base) + [n] + tail;
            |s| >= 5 && GetU32(s) == base && s[4] == n && s[5..] == tail
  {
    assert U32(base) + [n] + tail == U32(base) + ([n] + tail);
    U32RoundTrip(base, [n] + tail);
  }

  lemma ElementRoundTrip(e: Element, mode: Byte, rest: Buffer)
    requires GoodElement(e, mode)
    ensures ParseElement(ElementBytes(e, mode) + rest, mode) == Ok(e, rest)
  {
    if mode == 0 {
      U32RoundTrip(e.baseWord, rest);
    } else {
      var tail := PatchesBytes(e.patches) + rest;
      assert ElementBytes(e, mode) + rest == U32(e.baseWord) + [|e.patches|] + tail;
      OverlayFront(e.baseWord, |e.patches|, tail);
      PatchesRoundTrip(e.patches, rest);
    }
  }

  lemma {:induction false} ElementsRoundTrip(es: seq<Element>, mode: Byte)
    requires forall e :: e in es ==> GoodElement(e, mode)
    ensures ParseElements(ElementsBytes(es, mode), mode) == Ok(es, [])
  {
    if es != [] {
      ElementRoundTrip(es[0], mode, ElementsBytes(es[1..], mode));
      ElementsRoundTrip(es[1..], mode);
      assert [es[0]] + es[1..] == es;
      assert ElementsBytes(es, mode) != [];
    }
  }

  lemma {:induction false} WordsAreWhole(es: seq<Element>)
    requires forall e :: e in es ==> GoodElement(e, 0)
    ensures |ElementsBytes(es, 0)| == 4 * |es|
  {
    if es != [] {
      WordsAreWhole(es[1..]);
    }
  }

  lemma PayloadRoundTrip(r: Record)
    requires Writable(r)
    ensures DecodePayload(Kind(r), Payload(r)) == Decoded(r)
  {
    match r
    case InsnRun(mode, elements) =>
      assert Payload(r)[1..] == ElementsBytes(elements, mode);
      ElementsRoundTrip(elements, mode);
      if mode == 0 { WordsAreWhole(elements); }
    case Comment(placement, body) => assert Payload(r)[1..] == body;
    case Directive(id, count, operands) => assert Payload(r)[2..] == operands;
    case LitData(id, raw) => assert Payload(r)[1..] == raw;
    case Other(_, _) =>
  }

  lemma RecordRoundTrip(r: Record, rest: Buffer)
    requires Writable(r) && |Payload(r)| < 0x1_0000
    ensures ParseRecord(RecordBytes(r) + rest) == Ok(r, rest)
  {
    var p := Payload(r);
    var s := RecordBytes(r) + rest;
    assert s[1..] == U16(|p|) + (p + rest);
    U16RoundTrip(|p|, p + rest);
    assert s[3..3 + |p|] == p && s[3 + |p|..] == rest;
    PayloadRoundTrip(r);
  }

  /** A record is read back exactly when its payload fits the 16-bit length; a longer one is cut off silently. */
  lemma RecordSurvives(r: Record, rest: Buffer)
    requires Writable(r)
    ensures ParseRecord(RecordBytes(r) + rest) == Ok(r, rest) <==> |Payload(r)| < 0x1_0000
  {
    var p := Payload(r);
    var s := RecordBytes(r) + rest;
    if |p| < 0x1_0000 {
      RecordRoundTrip(r, rest);
    } else {
      assert s[1..] == U16(|p|) + (p + rest);
      U16RoundTrip(|p|, p + rest);
      var got := ParseRecord(s);
      assert got.Ok? ==> |got.rest| == |s| - 3 - |p| % 0x1_0000;
    }
  }

  lemma {:induction false} StreamRoundTrip(rs: seq<Record>)
    requires forall r :: r in rs ==> Writable(r) && |Payload(r)| < 0x1_0000
    ensures ParseStream(StreamBytes(rs)) == Ok(rs, [])
  {
    if rs != [] {
      RecordRoundTrip(rs[0], StreamBytes(rs[1..]));
      StreamRoundTrip(rs[1..]);
      assert [rs[0]] + rs[1..] == rs;
    }
  }

  lemma {:induction false} StreamAppend(rs: seq<Record>, r: Record)
    requires (forall x :: x in rs ==> Writable(x)) && Writable(r)
    ensures StreamBytes(rs + [r]) == StreamBytes(rs) + RecordBytes(r)
  {
    if rs == [] {
      assert rs + [r] == [r];
      assert StreamBytes([r]) == RecordBytes(r) + StreamBytes([r][1..]);
    } else {
      assert (rs + [r])[1..] == rs[1..] + [r];
      StreamAppend(rs[1..], r);
      Regroup(RecordBytes(rs[0]), StreamBytes(rs[1..]), RecordBytes(r));
    }
  }

  // ---------------------------------------------------------------- the writer

  lemma PatchesStep(ps: seq<Patch>, i: nat)
    requires i < |ps| && forall p :: p in ps ==> GoodPatch(p)
    ensures PatchesBytes(ps[i..]) == PatchBytes(ps[i]) + PatchesBytes(ps[i + 1..])
  {
    assert ps[i..][1..] == ps[i + 1..];
  }

  lemma ElementsStep(es: seq<Element>, mode: Byte, i: nat)
    requires i < |es| && forall e :: e in es ==> GoodElement(e, mode)
    ensures ElementsBytes(es[i..], mode) == ElementBytes(es[i], mode) + ElementsBytes(es[i + 1..], mode)
  {
    assert es[i..][1..] == es[i + 1..];
  }

  method AppendPatch(payload: Buffer, p: Patch) returns (out: Buffer)
    requires GoodPatch(p)
    ensures out == payload + PatchBytes(p)
  {
    if |p.expr| < EXPR_LEN_ESCAPE {
      out := payload + [p.slot * 16 + |p.expr|];
    } else {
      out := payload + [p.slot * 16 + EXPR_LEN_ESCAPE, |p.expr|];
    }
    out := out + p.expr;
  }

  method AppendPatches(payload: Buffer, ps: seq<Patch>) returns (out: Buffer)
    requires forall p :: p in ps ==> GoodPatch(p)
    ensures out == payload + PatchesBytes(ps)
  {
    out := payload;
    var i := 0;
    while i < |ps|
      invariant 0 <= i <= |ps|
      invariant out + PatchesBytes(ps[i..]) == payload + PatchesBytes(ps)
    {
      PatchesStep(ps, i);
      Regroup(out, PatchBytes(ps[i]), PatchesBytes(ps[i + 1..]));
      out := AppendPatch(out, ps[i]);
      i := i + 1;
    }
    assert ps[i..] == [];
  }

  lemma Regroup3(a: Buffer, b: Buffer, c: Buffer, d: Buffer)
    ensures a + b + c + d == a + (b + c + d)
  {
  }

  method AppendElement(payload: Buffer, e: Element, mode: Byte) returns (out: Buffer)
    requires GoodElement(e, mode)
    ensures out == payload + ElementBytes(e, mode)
  {
    out := payload + U32(e.baseWord);
    if mode != 0 {
      out := out + [|e.patches|];
      out := AppendPatches(out, e.patches);
      Regroup3(payload, U32(e.baseWord), [|e.patches|], PatchesBytes(e.patches));
    }
  }

  class RecordWriter {
    var buf: Buffer

    constructor ()
      ensures buf == []
    {
      buf := [];
    }

    method WriteHeader(kind: Byte, payloadLen: nat)
      modifies this
      ensures buf == old(buf) + [kind] + U16(payloadLen)
    {
      buf := buf + [kind];
      buf := buf + U16(payloadLen);
    }

    method WriteComment(placement: Byte, body: Buffer)
      modifies this
      ensures buf == old(buf) + RecordBytes(Comment(placement, body))
    {
      WriteHeader(KIND_COMMENT, 1 + |body|);
      buf := buf + [placement];
      buf := buf + body;
    }

    method WriteLitData(directiveID: Byte, raw: Buffer)
      modifies this
      ensures buf == old(buf) + RecordBytes(LitData(directiveID, raw))
    {
      WriteHeader(KIND_LIT_DATA, 1 + |raw|);
      buf := buf + [directiveID];
      buf := buf + raw;
    }

    method WriteDirective(directiveID: Byte, operandCount: Byte, operands: Buffer)
      modifies this
      ensures buf == old(buf) + RecordBytes(Directive(directiveID, operandCount, operands))
    {
      WriteHeader(KIND_DIRECTIVE, 1 + 1 + |operands|);
      buf := buf + [directiveID, operandCount];
      buf := buf + operands;
    }

    /** The requirement excludes what the code panics on. */
    method WriteInsnRun(mode: Byte, elements: seq<Element>)
      requires Writable(InsnRun(mode, elements))
      modifies this
      ensures buf == old(buf) + RecordBytes(InsnRun(mode, elements))
    {
      var payload: Buffer := [mode];
      var i := 0;
      while i < |elements|
        invariant 0 <= i <= |elements| && buf == old(buf)
        invariant payload + ElementsBytes(elements[i..], mode) == [mode] + ElementsBytes(elements, mode)
      {
        ElementsStep(elements, mode, i);
        Regroup(payload, ElementBytes(elements[i], mode), ElementsBytes(elements[i + 1..], mode));
        payload := AppendElement(payload, elements[i], mode);
        i := i + 1;
      }
      assert elements[i..] == [] && payload + [] == payload;
      assert payload == Payload(InsnRun(mode, elements));
      ghost var header := [KIND_INSN_RUN] + U16(|payload|);
      assert RecordBytes(InsnRun(mode, elements)) == header + payload;
      WriteHeader(KIND_INSN_RUN, |payload|);
      Regroup(old(buf), [KIND_INSN_RUN], U16(|payload|));
      Regroup(old(buf), header, payload);
      buf := buf + payload;
    }
  }

  // ---------------------------------------------------------------- the reader

  function AfterPatches(done: seq<Patch>, r: Parsed<seq<Patch>>): Parsed<seq<Patch>> {
    match r
    case Ok(ps, rest) => Ok(done + ps, rest)
    case other => other
  }

  function AfterElements(done: seq<Element>, r: Parsed<seq<Element>>): Parsed<seq<Element>> {
    match r
    case Ok(es, rest) => Ok(done + es, rest)
    case other => other
  }

  method ReadPatches(s: Buffer, count: nat) returns (r: Parsed<seq<Patch>>)
    ensures r == ParsePatches(s, count)
  {
    var ps: seq<Patch> := [];
    var rest := s;
    var p := 0;
    assert AfterPatches([], ParsePatches(s, count)) == ParsePatches(s, count) by {
      if ParsePatches(s, count).Ok? { assert [] + ParsePatches(s, count).value == ParsePatches(s, count).value; }
    }
    while p < count
      invariant 0 <= p <= count
      invariant ParsePatches(s, count) == AfterPatches(ps, ParsePatches(rest, count - p))
    {
      var one := ParsePatch(rest);
      match one {
        case Err => return Err;
        case Panic => return Panic;
        case Ok(patch, more) =>
          ghost var tail := ParsePatches(more, count - p - 1);
          if tail.Ok? { assert ps + ([patch] + tail.value) == (ps + [patch]) + tail.value; }
          ps, rest := ps + [patch], more;
      }
      p := p + 1;
    }
    assert ps + [] == ps;
    return Ok(ps, rest);
  }

  method ReadElements(s: Buffer, mode: Byte) returns (r: Parsed<seq<Element>>)
    ensures r == ParseElements(s, mode)
  {
    var es: seq<Element> := [];
    var rest := s;
    assert AfterElements([], ParseElements(s, mode)) == ParseElements(s, mode) by {
      if ParseElements(s, mode).Ok? { assert [] + ParseElements(s, mode).value == ParseElements(s, mode).value; }
    }
    while rest != []
      invariant ParseElements(s, mode) == AfterElements(es, ParseElements(rest, mode))
      decreases |rest|
    {
      ElementShortens(rest, mode);
      var one := ReadElement(rest, mode);
      match one {
        case Err => return Err;
        case Panic => return Panic;
        case Ok(e, more) =>
          ghost var tail := ParseElements(more, mode);
          if tail.Ok? { assert es + ([e] + tail.value) == (es + [e]) + tail.value; }
          es, rest := es + [e], more;
      }
    }
    assert es + [] == es;
    return Ok(es, []);
  }

  method ReadElement(s: Buffer, mode: Byte) returns (r: Parsed<Element>)
    ensures r == ParseElement(s, mode)
  {
    if mode == 0 {
      return if |s| < 4 then Err else Ok(Element(GetU32(s), []), s[4..]);
    }
    if |s| < 5 { return Err; }
    var ps := ReadPatches(s[5..], s[4]);
    match ps {
      case Ok(v, rest) => return Ok(Element(GetU32(s), v), rest);
      case Err => return Err;
      case Panic => return Panic;
    }
  }

  class RecordReader {
    const buf: Buffer
    var pos: nat

    constructor (buf: Buffer)
      ensures this.buf == buf && pos == 0
    {
      this.buf := buf;
      pos := 0;
    }

    predicate AtEnd()
      reads this
    {
      pos >= |buf|
    }

    /** The record at pos, and on past it; reading at the end is an error. */
    method Next() returns (r: Parsed<Record>)
      requires pos <= |buf|
      modifies this`pos
      ensures pos <= |buf|
      ensures r == ParseRecord(buf[old(pos)..])
      ensures r.Ok? ==> old(pos) < pos && r.rest == buf[pos..]
    {
      var start := pos;
      var s := buf[pos..];
      if AtEnd() || |s| < 3 { return Err; }
      var kind := buf[pos];
      var length := GetU16(s[1..]);
      if pos + 3 + length > |buf| { return Err; }
      pos := pos + 3;
      var payload := buf[pos..pos + length];
      assert payload == s[3..3 + length];
      pos := pos + length;
      assert s[3 + length..] == buf[pos..];
      var d := DecodeRecord(kind, payload);
      if d.Malformed? { return Err; }
      return Ok(d.r, buf[pos..]);
    }

    method DecodeRecord(kind: Byte, payload: Buffer) returns (d: Decoded)
      ensures d == DecodePayload(kind, payload)
    {
      if kind == KIND_INSN_RUN {
        if |payload| < 1 || payload[0] > 1 { return Malformed; }
        if payload[0] == 0 && |payload[1..]| % 4 != 0 { return Malformed; }
        var es := ReadElements(payload[1..], payload[0]);
        return if es.Ok? then Decoded(InsnRun(payload[0], es.value)) else Malformed;
      }
      d := DecodePayload(kind, payload);
    }
  }
}
