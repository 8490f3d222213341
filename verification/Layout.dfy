/** The bytes of the record stream (tools/sam-aarch64-format/kinds.go, writer.go, reader.go), described on their own:
    what a record looks like, byte by byte, and that the reader takes exactly that for the record. */
module Layout {
  import opened Bytes
  import opened Common
  import opened Records

  /** rest is the end of s. */
  predicate Ends(s: Buffer, rest: Buffer) {
    |rest| <= |s| && s[|s| - |rest|..] == rest
  }

  lemma EndsOfEnd(s: Buffer, mid: Buffer, rest: Buffer)
    requires Ends(s, mid) && Ends(mid, rest)
    ensures Ends(s, rest)
  {
  }

  /** A front of b + tail that leaves no less than the tail is a front of b. */
  lemma CutInFront(b: Buffer, tail: Buffer, rest: Buffer) returns (n: nat)
    requires Ends(b + tail, rest) && |rest| >= |tail|
    ensures n <= |b| && rest == b[n..] + tail && b + tail == b[..n] + rest
  {
    n := |b| + |tail| - |rest|;
  }

  lemma CutAt(b: Buffer, tail: Buffer, n: nat)
    requires n <= |b|
    ensures b + tail == b[..n] + (b[n..] + tail)
  {
  }

  lemma BothCuts(b: Buffer, n: nat)
    requires n <= |b|
    ensures b[..n] + b[n..] == b
  {
  }

  lemma FirstAndRest<T>(s: seq<T>)
    requires s != []
    ensures s == [s[0]] + s[1..]
  {
  }

  // ---------------------------------------------------------------- varints

  /** Seven bits of each byte, low ones first. */
  function Septets(b: Buffer): nat {
    if b == [] then 0 else b[0] % 128 + 128 * Septets(b[1..])
  }

  /** The top bit is set on all bytes but the last. */
  predicate TopBits(b: Buffer) {
    b != [] && b[|b| - 1] < 128 && forall k :: 0 <= k < |b| - 1 ==> b[k] >= 128
  }

  /** The varint of n, in ten bytes at most and for 64 bits at most. */
  predicate VarintLays(n: nat, b: Buffer) {
    TopBits(b) && |b| <= 10 && Septets(b) == n < 0x1_0000_0000_0000_0000
  }

  lemma {:induction false} VarintIsRead(b: Buffer, rest: Buffer, i: nat)
    requires i <= 9 && TopBits(b) && |b| <= 10 - i && Septets(b) < Room(i)
    ensures GetUvarintFrom(b + rest, i) == Ok(Septets(b), rest)
    decreases |b|
  {
    assert (b + rest)[1..] == b[1..] + rest;
    if b[0] < 128 {
      assert b[1..] == [] && [] + rest == rest;
    } else {
      TopBitsStep(b);
      VarintIsRead(b[1..], rest, i + 1);
    }
  }

  lemma {:induction false} ReadVarintIsLaid(b: Buffer, rest: Buffer, i: nat, n: nat)
    requires i <= 9 && GetUvarintFrom(b + rest, i) == Ok(n, rest)
    ensures TopBits(b) && |b| <= 10 - i && Septets(b) == n < Room(i)
    decreases |b|
  {
    GetUvarintFits(b + rest, i);
    assert |b + rest| == |b| + |rest|;
    assert (b + rest)[1..] == b[1..] + rest;
    if b[0] < 128 {
      assert |b[1..] + rest| == |rest|;
    } else {
      ReadVarintIsLaid(b[1..], rest, i + 1, GetUvarintFrom(b[1..] + rest, i + 1).value);
      TopBitsStep(b);
    }
  }

  lemma TopBitsStep(b: Buffer)
    requires b != [] && b[0] >= 128
    ensures TopBits(b) <==> TopBits(b[1..])
  {
    if TopBits(b[1..]) {
      forall k | 0 <= k < |b| - 1 ensures b[k] >= 128 {
        if k > 0 { assert b[k] == b[1..][k - 1]; }
      }
    }
  }

  /** The reader takes exactly such bytes for the number. */
  lemma VarintReads(b: Buffer, rest: Buffer, n: nat)
    ensures GetUvarint(b + rest) == Ok(n, rest) <==> VarintLays(n, b)
  {
    RoomIs64();
    if VarintLays(n, b) { VarintIsRead(b, rest, 0); }
    if GetUvarint(b + rest) == Ok(n, rest) { ReadVarintIsLaid(b, rest, 0, n); }
  }

  lemma HighPart(low: Byte, high: nat, n: nat)
    requires low >= 128 && n == low % 128 + 128 * high
    ensures n / 128 == high && n % 128 + 128 == low
  {
  }

  /** The writer uses no more bytes than it must, and there is only one way to use so few. */
  lemma {:induction false} VarintIsShortest(n: nat, b: Buffer)
    requires TopBits(b) && Septets(b) == n
    ensures |Uvarint(n)| <= |b| && (|Uvarint(n)| == |b| ==> b == Uvarint(n))
    decreases |b|
  {
    if b[0] >= 128 {
      TopBitsStep(b);
      var high := Septets(b[1..]);
      HighPart(b[0], high, n);
      VarintIsShortest(high, b[1..]);
      assert b == [b[0]] + b[1..];
    } else {
      assert |b| == 1;
    }
  }

  // ---------------------------------------------------------------- records

  /** The slot in the high half of the first byte; the length in the low half, or, if that is 15, in the next byte. */
  predicate PatchLays(p: Patch, b: Buffer) {
    b != []
    && ((|p.expr| < 15 && b[0] == 16 * p.slot + |p.expr| && b[1..] == p.expr)
        || (|b| >= 2 && b[0] == 16 * p.slot + 15 && b[1] == |p.expr| && b[2..] == p.expr))
  }

  ghost predicate PatchesLay(ps: seq<Patch>, b: Buffer) {
    if ps == [] then b == []
    else exists n :: 0 <= n <= |b| && PatchLays(ps[0], b[..n]) && PatchesLay(ps[1..], b[n..])
  }

  /** The word, low byte first, the number of patches, and the patches. */
  ghost predicate ElementLays(e: Element, b: Buffer) {
    |b| >= 5 && Little(b[..4]) == e.baseWord && b[4] == |e.patches| && PatchesLay(e.patches, b[5..])
  }

  ghost predicate ElementsLay(es: seq<Element>, b: Buffer) {
    if es == [] then b == []
    else exists n :: 0 <= n <= |b| && ElementLays(es[0], b[..n]) && ElementsLay(es[1..], b[n..])
  }

  /** Word k in bytes 4k to 4k + 3, low byte first. */
  ghost predicate WordsLay(es: seq<Element>, b: Buffer) {
    |b| == 4 * |es| && forall k :: 0 <= k < |es| ==>
      es[k].baseWord == Little(b[4 * k..4 * k + 4]) && es[k].patches == []
  }

  ghost predicate PayloadLays(r: Record, kind: Byte, b: Buffer) {
    match r
    case Comment(placement, body) => kind == 5 && |b| >= 1 && b[0] == placement && b[1..] == body
    case Directive(id, count, operands) => kind == 4 && |b| >= 2 && b[0] == id && b[1] == count && b[2..] == operands
    case LitData(id, raw) => kind == 8 && |b| >= 1 && b[0] == id && b[1..] == raw
    case InsnRun(mode, es) =>
      kind == 9 && |b| >= 1 && b[0] == mode
      && ((mode == 0 && WordsLay(es, b[1..])) || (mode == 1 && ElementsLay(es, b[1..])))
    case Other(k, payload) => kind == k && k !in {4, 5, 8, 9} && b == payload
  }

  /** The kind, the length of the payload, low byte first, and the payload. */
  ghost predicate RecordLays(r: Record, b: Buffer) {
    |b| >= 3 && b[1] + 256 * (b[2] as int) == |b| - 3 && PayloadLays(r, b[0], b[3..])
  }

  ghost predicate RecordsLay(rs: seq<Record>, b: Buffer) {
    if rs == [] then b == []
    else exists n :: 0 <= n <= |b| && RecordLays(rs[0], b[..n]) && RecordsLay(rs[1..], b[n..])
  }

  // ---------------------------------------------------------------- the reader reads exactly this

  lemma PatchReads(b: Buffer, rest: Buffer, p: Patch)
    ensures ParsePatch(b + rest) == Ok(p, rest) <==> PatchLays(p, b)
  {
    if PatchLays(p, b) { PatchIsRead(b, rest, p); }
    if ParsePatch(b + rest) == Ok(p, rest) { ReadPatchIsLaid(b, rest, p); }
  }

  lemma PatchIsRead(b: Buffer, rest: Buffer, p: Patch)
    requires PatchLays(p, b)
    ensures ParsePatch(b + rest) == Ok(p, rest)
  {
    var s := b + rest;
    assert s[0] == b[0];
    if b[0] % 16 < 15 {
      assert s[1..1 + |p.expr|] == p.expr && s[1 + |p.expr|..] == rest;
    } else {
      assert s[1] == b[1] && s[2..2 + |p.expr|] == p.expr && s[2 + |p.expr|..] == rest;
    }
  }

  lemma ReadPatchIsLaid(b: Buffer, rest: Buffer, p: Patch)
    requires ParsePatch(b + rest) == Ok(p, rest)
    ensures PatchLays(p, b)
  {
    var s := b + rest;
    assert b != [] && s[0] == b[0];
    if b[0] % 16 < 15 {
      assert b[1..] == s[1..1 + |p.expr|];
    } else {
      assert s[1] == b[1] && b[2..] == s[2..2 + |p.expr|];
    }
  }

  lemma PatchEnds(s: Buffer)
    ensures ParsePatch(s).Ok? ==> Ends(s, ParsePatch(s).rest)
  {
  }

  lemma {:induction false} PatchesEnd(s: Buffer, count: nat)
    ensures ParsePatches(s, count).Ok? ==> Ends(s, ParsePatches(s, count).rest)
    decreases count
  {
    if count > 0 && ParsePatch(s).Ok? {
      var s1 := ParsePatch(s).rest;
      PatchEnds(s);
      PatchesEnd(s1, count - 1);
      if ParsePatches(s1, count - 1).Ok? { EndsOfEnd(s, s1, ParsePatches(s1, count - 1).rest); }
    }
  }

  lemma {:induction false} PatchesAreRead(b: Buffer, rest: Buffer, ps: seq<Patch>)
    requires PatchesLay(ps, b)
    ensures ParsePatches(b + rest, |ps|) == Ok(ps, rest)
    decreases |ps|
  {
    if ps == [] {
      assert b + rest == rest;
    } else {
      var n: nat :| n <= |b| && PatchLays(ps[0], b[..n]) && PatchesLay(ps[1..], b[n..]);
      PatchesAreRead(b[n..], rest, ps[1..]);
      FirstPatchRead(b, rest, ps, n);
    }
  }

  lemma FirstPatchRead(b: Buffer, rest: Buffer, ps: seq<Patch>, n: nat)
    requires ps != [] && n <= |b| && PatchLays(ps[0], b[..n])
    requires ParsePatches(b[n..] + rest, |ps[1..]|) == Ok(ps[1..], rest)
    ensures ParsePatches(b + rest, |ps|) == Ok(ps, rest)
  {
    CutAt(b, rest, n);
    PatchReads(b[..n], b[n..] + rest, ps[0]);
    FirstPatch(b + rest, ps[0], b[n..] + rest, ps[1..], rest);
    FirstAndRest(ps);
  }

  lemma {:induction false} ReadPatchesAreLaid(b: Buffer, rest: Buffer, ps: seq<Patch>, count: nat)
    requires ParsePatches(b + rest, count) == Ok(ps, rest)
    ensures |ps| == count && PatchesLay(ps, b)
    decreases count
  {
    if count == 0 {
      assert |b + rest| == |rest|;
    } else {
      var n := FirstPatchCut(b, rest, ps, count);
      ReadPatchesAreLaid(b[n..], rest, ps[1..], count - 1);
    }
  }

  lemma FirstPatchCut(b: Buffer, rest: Buffer, ps: seq<Patch>, count: nat) returns (n: nat)
    requires count > 0 && ParsePatches(b + rest, count) == Ok(ps, rest)
    ensures ps != [] && n <= |b| && PatchLays(ps[0], b[..n])
    ensures ParsePatches(b[n..] + rest, count - 1) == Ok(ps[1..], rest)
  {
    var first := ParsePatch(b + rest);
    PatchEnds(b + rest);
    PatchesEnd(first.rest, count - 1);
    n := CutInFront(b, rest, first.rest);
    PatchReads(b[..n], first.rest, first.value);
  }

  /** The word and the number of patches. */
  lemma FrontFive(b: Buffer, rest: Buffer)
    requires |b| >= 5
    ensures var s := b + rest;
            GetU32(s) == Little(b[..4]) && s[4] == b[4] && s[5..] == b[5..] + rest
  {
    var s := b + rest;
    U32IsLittle(s);
    assert s[..4] == b[..4];
  }

  lemma ElementIsRead(b: Buffer, rest: Buffer, e: Element)
    requires ElementLays(e, b)
    ensures ParseElement(b + rest, 1) == Ok(e, rest)
  {
    FrontFive(b, rest);
    PatchesAreRead(b[5..], rest, e.patches);
  }

  lemma ReadElementIsLaid(b: Buffer, rest: Buffer, e: Element)
    requires ParseElement(b + rest, 1) == Ok(e, rest)
    ensures ElementLays(e, b)
  {
    var s := b + rest;
    PatchesEnd(s[5..], s[4]);
    assert |b| >= 5;
    FrontFive(b, rest);
    ReadPatchesAreLaid(b[5..], rest, e.patches, b[4]);
  }

  lemma ElementEnds(s: Buffer)
    ensures ParseElement(s, 1).Ok? ==> Ends(s, ParseElement(s, 1).rest)
  {
    if |s| >= 5 { PatchesEnd(s[5..], s[4]); }
  }

  lemma FirstElement(s: Buffer, mode: Byte, e: Element, s1: Buffer, es: seq<Element>)
    requires ParseElement(s, mode) == Ok(e, s1) && ParseElements(s1, mode) == Ok(es, [])
    ensures ParseElements(s, mode) == Ok([e] + es, [])
  {
    ElementShortens(s, mode);
  }

  lemma {:induction false} ElementsAreRead(b: Buffer, es: seq<Element>)
    requires ElementsLay(es, b)
    ensures ParseElements(b, 1) == Ok(es, [])
    decreases |es|
  {
    if es != [] {
      var n: nat :| n <= |b| && ElementLays(es[0], b[..n]) && ElementsLay(es[1..], b[n..]);
      ElementsAreRead(b[n..], es[1..]);
      ElementIsRead(b[..n], b[n..], es[0]);
      BothCuts(b, n);
      FirstElement(b, 1, es[0], b[n..], es[1..]);
      FirstAndRest(es);
    }
  }

  lemma {:induction false} ReadElementsAreLaid(b: Buffer, es: seq<Element>)
    requires ParseElements(b, 1) == Ok(es, [])
    ensures ElementsLay(es, b)
    decreases |b|
  {
    if b != [] {
      ElementShortens(b, 1);
      ElementEnds(b);
      var first := ParseElement(b, 1);
      var n := |b| - |first.rest|;
      assert b == b[..n] + first.rest && b[n..] == first.rest;
      ReadElementIsLaid(b[..n], first.rest, first.value);
      ReadElementsAreLaid(first.rest, es[1..]);
    }
  }

  lemma {:induction false} ElementsRest(s: Buffer, mode: Byte)
    ensures ParseElements(s, mode).Ok? ==> ParseElements(s, mode).rest == []
    decreases |s|
  {
    ElementShortens(s, mode);
    if s != [] && ParseElement(s, mode).Ok? {
      ElementsRest(ParseElement(s, mode).rest, mode);
    }
  }

  lemma WordSlice(b: Buffer, k: nat)
    requires k > 0 && 4 * k + 4 <= |b|
    ensures b[4 * k..4 * k + 4] == b[4..][4 * (k - 1)..4 * (k - 1) + 4]
  {
    var i := 4 * (k - 1);
    assert b[i + 4..i + 8] == b[4..][i..i + 4];
  }

  lemma WordsStep(es: seq<Element>, b: Buffer)
    requires |b| >= 4 && es != []
    ensures WordsLay(es, b) <==> es[0] == Element(GetU32(b), []) && WordsLay(es[1..], b[4..])
  {
    U32IsLittle(b);
    forall k: nat | 0 < k < |es| && |b| == 4 * |es|
      ensures b[4 * k..4 * k + 4] == b[4..][4 * (k - 1)..4 * (k - 1) + 4]
    {
      WordSlice(b, k);
    }
    if WordsLay(es[1..], b[4..]) && es[0] == Element(GetU32(b), []) {
      forall k | 0 <= k < |es| ensures es[k].baseWord == Little(b[4 * k..4 * k + 4]) && es[k].patches == [] {
        if k > 0 { assert es[k] == es[1..][k - 1]; }
      }
    }
    if WordsLay(es, b) {
      forall k | 0 <= k < |es| - 1
        ensures es[1..][k].baseWord == Little(b[4..][4 * k..4 * k + 4]) && es[1..][k].patches == []
      {
        assert es[1..][k] == es[k + 1];
      }
    }
  }

  lemma FirstWord(b: Buffer, es: seq<Element>)
    requires |b| >= 4
    ensures ParseElements(b, 0) == Ok(es, []) <==>
            es != [] && es[0] == Element(GetU32(b), []) && ParseElements(b[4..], 0) == Ok(es[1..], [])
  {
    ElementShortens(b, 0);
    ElementsRest(b[4..], 0);
    if es != [] { FirstAndRest(es); }
  }

  lemma {:induction false} WordsAreRead(b: Buffer, es: seq<Element>)
    requires |b| % 4 == 0
    ensures ParseElements(b, 0) == Ok(es, []) <==> WordsLay(es, b)
    decreases |b|
  {
    if b != [] {
      FirstWord(b, es);
      if es != [] {
        WordsStep(es, b);
        WordsAreRead(b[4..], es[1..]);
      }
    }
  }

  lemma PayloadReads(kind: Byte, b: Buffer, r: Record)
    ensures DecodePayload(kind, b) == Decoded(r) <==> PayloadLays(r, kind, b)
  {
    if kind == 9 && |b| >= 1 { RunReads(b, r); }
  }

  lemma RunReads(b: Buffer, r: Record)
    requires |b| >= 1
    ensures DecodeRun(b) == Decoded(r) <==> PayloadLays(r, 9, b)
  {
    var body := b[1..];
    ElementsRest(body, b[0]);
    if r.InsnRun? && b[0] == 0 && |body| % 4 == 0 {
      WordsAreRead(body, r.elements);
    }
    if r.InsnRun? && b[0] == 1 {
      if ElementsLay(r.elements, body) { ElementsAreRead(body, r.elements); }
      if ParseElements(body, 1) == Ok(r.elements, []) { ReadElementsAreLaid(body, r.elements); }
    }
  }

  /** The reader takes exactly such bytes for the record, whatever follows. */
  lemma RecordReads(b: Buffer, rest: Buffer, r: Record)
    ensures ParseRecord(b + rest) == Ok(r, rest) <==> RecordLays(r, b)
  {
    var s := b + rest;
    if |s| >= 3 {
      var length := GetU16(s[1..]);
      if |b| >= 3 {
        assert s[1..][0] == b[1] && s[1..][1] == b[2] && s[0] == b[0];
        assert 3 + length == |b| ==> s[3..3 + length] == b[3..] && s[3 + length..] == rest;
        PayloadReads(b[0], b[3..], r);
      }
    }
  }

  lemma RecordEnds(s: Buffer)
    ensures ParseRecord(s).Ok? ==> Ends(s, ParseRecord(s).rest)
  {
  }

  /** And it fails exactly where there is no such front. */
  lemma RecordFails(s: Buffer)
    ensures ParseRecord(s).Ok? <==> exists r, n :: 0 <= n <= |s| && RecordLays(r, s[..n])
  {
    RecordEnds(s);
    var got := ParseRecord(s);
    if got.Ok? {
      var n := |s| - |got.rest|;
      BothCuts(s, n);
      RecordReads(s[..n], got.rest, got.value);
    }
    if r, n :| 0 <= n <= |s| && RecordLays(r, s[..n]) {
      BothCuts(s, n);
      RecordReads(s[..n], s[n..], r);
    }
  }

  lemma FirstRecord(s: Buffer, r: Record, s1: Buffer, rs: seq<Record>)
    requires ParseRecord(s) == Ok(r, s1) && ParseStream(s1) == Ok(rs, [])
    ensures ParseStream(s) == Ok([r] + rs, [])
  {
  }

  lemma {:induction false} StreamRest(s: Buffer)
    ensures ParseStream(s).Ok? ==> ParseStream(s).rest == []
    decreases |s|
  {
    if s != [] && ParseRecord(s).Ok? {
      StreamRest(ParseRecord(s).rest);
    }
  }

  lemma {:induction false} RecordsAreRead(b: Buffer, rs: seq<Record>)
    requires RecordsLay(rs, b)
    ensures ParseStream(b) == Ok(rs, [])
    decreases |rs|
  {
    if rs != [] {
      var n: nat :| n <= |b| && RecordLays(rs[0], b[..n]) && RecordsLay(rs[1..], b[n..]);
      RecordsAreRead(b[n..], rs[1..]);
      RecordReads(b[..n], b[n..], rs[0]);
      BothCuts(b, n);
      FirstRecord(b, rs[0], b[n..], rs[1..]);
      FirstAndRest(rs);
    }
  }

  lemma {:induction false} ReadRecordsAreLaid(b: Buffer, rs: seq<Record>)
    requires ParseStream(b) == Ok(rs, [])
    ensures RecordsLay(rs, b)
    decreases |b|
  {
    if b != [] {
      RecordEnds(b);
      var first := ParseRecord(b);
      var n := |b| - |first.rest|;
      BothCuts(b, n);
      RecordReads(b[..n], first.rest, first.value);
      ReadRecordsAreLaid(first.rest, rs[1..]);
    }
  }

  /** The record loop reads exactly the concatenations of such records. */
  lemma StreamReads(b: Buffer, rs: seq<Record>)
    ensures ParseStream(b) == Ok(rs, []) <==> RecordsLay(rs, b)
  {
    if RecordsLay(rs, b) { RecordsAreRead(b, rs); }
    if ParseStream(b) == Ok(rs, []) { ReadRecordsAreLaid(b, rs); }
  }

  // ---------------------------------------------------------------- the writer writes exactly this

  /** What the writer appends for a record is laid out so. */
  lemma RecordIsLaid(r: Record)
    requires Writable(r) && |Payload(r)| < 0x1_0000
    ensures RecordLays(r, RecordBytes(r))
  {
    RecordRoundTrip(r, []);
    assert RecordBytes(r) + [] == RecordBytes(r);
    RecordReads(RecordBytes(r), [], r);
  }

  predicate AtMost(short: Buffer, b: Buffer) {
    |short| <= |b| && (|short| == |b| ==> b == short)
  }

  lemma JoinAtMost(s1: Buffer, s2: Buffer, b: Buffer, n: nat)
    requires n <= |b| && AtMost(s1, b[..n]) && AtMost(s2, b[n..])
    ensures AtMost(s1 + s2, b)
  {
    BothCuts(b, n);
  }

  lemma PatchIsShortest(p: Patch, b: Buffer)
    requires GoodPatch(p) && PatchLays(p, b)
    ensures AtMost(PatchBytes(p), b)
  {
    if |p.expr| < 15 && |b| == 1 + |p.expr| {
      assert b == [b[0]] + b[1..];
    } else if |b| == 2 + |p.expr| && b[0] % 16 == 15 {
      assert b == [b[0], b[1]] + b[2..];
    }
  }

  lemma {:induction false} PatchesAreShortest(ps: seq<Patch>, b: Buffer)
    requires (forall p :: p in ps ==> GoodPatch(p)) && PatchesLay(ps, b)
    ensures AtMost(PatchesBytes(ps), b)
    decreases |ps|
  {
    if ps != [] {
      var n: nat :| n <= |b| && PatchLays(ps[0], b[..n]) && PatchesLay(ps[1..], b[n..]);
      PatchIsShortest(ps[0], b[..n]);
      PatchesAreShortest(ps[1..], b[n..]);
      JoinAtMost(PatchBytes(ps[0]), PatchesBytes(ps[1..]), b, n);
    }
  }

  lemma WordBytes(w: Uint32, b: Buffer)
    requires |b| == 4 && Little(b) == w
    ensures b == U32(w)
  {
    assert b[..4] == b;
    U32IsLittle(b);
    var b1: int, b3: int := b[1], b[3];
    assert GetU16(b) == b[0] + 256 * b1 && GetU16(b[2..]) == b[2] + 256 * b3;
    HalfWordBytes(b[0], b[1]);
    HalfWordBytes(b[2], b[3]);
    HalvesOf(GetU16(b), GetU16(b[2..]));
  }

  lemma HalfWordBytes(lo: Byte, hi: Byte)
    ensures U16((lo as int) + 256 * (hi as int)) == [lo, hi]
  {
  }

  lemma HalvesOf(lo: nat, hi: nat)
    requires lo < 0x1_0000 && hi < 0x1_0000
    ensures (lo + 0x1_0000 * hi) % 0x1_0000 == lo && (lo + 0x1_0000 * hi) / 0x1_0000 == hi
  {
  }

  lemma ElementIsShortest(e: Element, b: Buffer)
    requires GoodElement(e, 1) && ElementLays(e, b)
    ensures AtMost(ElementBytes(e, 1), b)
  {
    PatchesAreShortest(e.patches, b[5..]);
    WordBytes(e.baseWord, b[..4]);
    assert b[..5] == b[..4] + [b[4]];
    JoinAtMost(U32(e.baseWord) + [|e.patches|], PatchesBytes(e.patches), b, 5);
  }

  lemma {:induction false} ElementsAreShortest(es: seq<Element>, b: Buffer)
    requires (forall e :: e in es ==> GoodElement(e, 1)) && ElementsLay(es, b)
    ensures AtMost(ElementsBytes(es, 1), b)
    decreases |es|
  {
    if es != [] {
      var n: nat :| n <= |b| && ElementLays(es[0], b[..n]) && ElementsLay(es[1..], b[n..]);
      ElementIsShortest(es[0], b[..n]);
      ElementsAreShortest(es[1..], b[n..]);
      JoinAtMost(ElementBytes(es[0], 1), ElementsBytes(es[1..], 1), b, n);
    }
  }

  lemma {:induction false} WordsAreBytes(es: seq<Element>, b: Buffer)
    requires WordsLay(es, b) && forall e :: e in es ==> GoodElement(e, 0)
    ensures b == ElementsBytes(es, 0)
    decreases |es|
  {
    if es != [] {
      WordsStep(es, b);
      WordsAreBytes(es[1..], b[4..]);
      assert es[0].baseWord == Little(b[4 * 0..4 * 0 + 4]);
      WordBytes(es[0].baseWord, b[..4]);
      BothCuts(b, 4);
    }
  }

  /** No record that reads as r is shorter than the one written for it, and none of its length is another. */
  lemma RecordIsShortest(r: Record, b: Buffer)
    requires Writable(r) && RecordLays(r, b)
    ensures |RecordBytes(r)| <= |b| && (|RecordBytes(r)| == |b| ==> b == RecordBytes(r))
  {
    PayloadIsShortest(r, b[0], b[3..]);
    if |RecordBytes(r)| == |b| {
      HalfWordBytes(b[1], b[2]);
      assert b == [b[0]] + [b[1], b[2]] + b[3..];
    }
  }

  lemma PayloadIsShortest(r: Record, kind: Byte, b: Buffer)
    requires Writable(r) && PayloadLays(r, kind, b)
    ensures kind == Kind(r) && AtMost(Payload(r), b)
  {
    match r
    case Comment(placement, _) => BothCuts(b, 1);
    case Directive(id, count, _) => assert b == [b[0], b[1]] + b[2..];
    case LitData(id, _) => BothCuts(b, 1);
    case InsnRun(mode, es) =>
      if mode == 0 { WordsAreBytes(es, b[1..]); } else { ElementsAreShortest(es, b[1..]); }
      assert b[..1] == [mode];
      JoinAtMost([mode], ElementsBytes(es, mode), b, 1);
    case Other(_, _) =>
  }

  // ---------------------------------------------------------------- what the writer refuses

  lemma {:induction false} LaidPatchesFit(ps: seq<Patch>, b: Buffer)
    requires PatchesLay(ps, b)
    ensures forall p :: p in ps ==> p.slot <= 15 && |p.expr| <= 255
    decreases |ps|
  {
    if ps != [] {
      var n: nat :| n <= |b| && PatchLays(ps[0], b[..n]) && PatchesLay(ps[1..], b[n..]);
      LaidPatchesFit(ps[1..], b[n..]);
    }
  }

  lemma {:induction false} LaidElementsFit(es: seq<Element>, b: Buffer)
    requires ElementsLay(es, b) && forall e, p :: e in es && p in e.patches ==> p.slot != 0
    ensures forall e :: e in es ==> GoodElement(e, 1)
    decreases |es|
  {
    if es != [] {
      var n: nat :| n <= |b| && ElementLays(es[0], b[..n]) && ElementsLay(es[1..], b[n..]);
      LaidPatchesFit(es[0].patches, b[..n][5..]);
      LaidElementsFit(es[1..], b[n..]);
    }
  }

  /** WriteInsnRun panics exactly on slot 0 and on runs that have no layout. */
  lemma WritableRuns(mode: Byte, es: seq<Element>)
    ensures Writable(InsnRun(mode, es)) <==>
            (exists b :: PayloadLays(InsnRun(mode, es), 9, b))
            && forall e, p :: e in es && p in e.patches ==> p.slot != 0
  {
    var r := InsnRun(mode, es);
    if Writable(r) {
      PayloadRoundTrip(r);
      PayloadReads(9, Payload(r), r);
    }
    if b :| PayloadLays(r, 9, b) && forall e, p :: e in es && p in e.patches ==> p.slot != 0 {
      if mode == 1 {
        LaidElementsFit(es, b[1..]);
      } else {
        forall e | e in es ensures GoodElement(e, 0) {
          var k :| 0 <= k < |es| && es[k] == e;
        }
      }
    }
  }
}
