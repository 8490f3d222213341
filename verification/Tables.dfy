/** Counted tables of rows: [count u16] row .. row. Every row is written and read against a running state (the
    previous offset, the previous name). */
module Tables {
  import opened Bytes

  /** The bytes of a row after state st, and the state after it. */
  type Encoder<!R, !S> = (R, S) -> (Buffer, S)

  /** The row at the front of a buffer, and the state after it. */
  type Decoder<!R, !S> = (Buffer, S) -> Parsed<(R, S)>

  function RowsBytes<R, S>(enc: Encoder<R, S>, rows: seq<R>, st: S): Buffer {
    if rows == [] then [] else enc(rows[0], st).0 + RowsBytes(enc, rows[1..], enc(rows[0], st).1)
  }

  /** The count is a uint16: it wraps. */
  function TableBytes<R, S>(enc: Encoder<R, S>, rows: seq<R>, st: S): Buffer {
    U16(|rows|) + RowsBytes(enc, rows, st)
  }

  function Prepend<R>(rows: seq<R>, p: Parsed<seq<R>>): Parsed<seq<R>> {
    match p
    case Ok(more, rest) => Ok(rows + more, rest)
    case other => other
  }

  function ParseRows<R, S>(dec: Decoder<R, S>, s: Buffer, count: nat, st: S): Parsed<seq<R>>
    decreases count
  {
    if count == 0 then Ok([], s)
    else
      match dec(s, st)
      case Ok(row, rest) => Prepend([row.0], ParseRows(dec, rest, count - 1, row.1))
      case Err => Err
      case Panic => Panic
  }

  function ParseTable<R, S>(dec: Decoder<R, S>, s: Buffer, st: S): Parsed<seq<R>> {
    if |s| < 2 then Err else ParseRows(dec, s[2..], GetU16(s), st)
  }

  // ---------------------------------------------------------------- the loops

  /** The writers' loop. */
  method AppendRows<R, S>(buf: Buffer, enc: Encoder<R, S>, rows: seq<R>, start: S) returns (out: Buffer)
    ensures out == buf + TableBytes(enc, rows, start)
  {
    out := buf + U16(|rows|);
    var st := start;
    var i := 0;
    while i < |rows|
      invariant 0 <= i <= |rows|
      invariant out + RowsBytes(enc, rows[i..], st) == buf + TableBytes(enc, rows, start)
    {
      var (bytes, next) := enc(rows[i], st);
      RowsStep(enc, rows, i, st);
      Regroup(out, bytes, RowsBytes(enc, rows[i + 1..], next));
      out := out + bytes;
      st := next;
      i := i + 1;
    }
    assert rows[i..] == [];
  }

  lemma RowsStep<R, S>(enc: Encoder<R, S>, rows: seq<R>, i: nat, st: S)
    requires i < |rows|
    ensures RowsBytes(enc, rows[i..], st) == enc(rows[i], st).0 + RowsBytes(enc, rows[i + 1..], enc(rows[i], st).1)
  {
    assert rows[i..][1..] == rows[i + 1..];
  }

  lemma PrependNothing<R>(p: Parsed<seq<R>>)
    ensures Prepend([], p) == p
  {
    if p.Ok? {
      assert [] + p.value == p.value;
    }
  }

  lemma PrependTwice<R>(a: seq<R>, b: seq<R>, p: Parsed<seq<R>>)
    ensures Prepend(a, Prepend(b, p)) == Prepend(a + b, p)
  {
    if p.Ok? {
      assert a + (b + p.value) == a + b + p.value;
    }
  }

  /** The readers' loop. */
  method ReadRows<R, S>(dec: Decoder<R, S>, s: Buffer, start: S) returns (r: Parsed<seq<R>>)
    ensures r == ParseTable(dec, s, start)
  {
    if |s| < 2 { return Err; }
    var count := GetU16(s);
    var rest := s[2..];
    var rows: seq<R> := [];
    var st := start;
    var i := 0;
    PrependNothing(ParseRows(dec, rest, count, st));
    while i < count
      invariant 0 <= i <= count
      invariant ParseTable(dec, s, start) == Prepend(rows, ParseRows(dec, rest, count - i, st))
    {
      var row := dec(rest, st);
      match row {
        case Err => return Err;
        case Panic => return Panic;
        case Ok(v, more) =>
          PrependTwice(rows, [v.0], ParseRows(dec, more, count - i - 1, v.1));
          rows, st, rest := rows + [v.0], v.1, more;
      }
      i := i + 1;
    }
    assert rows + [] == rows;
    return Ok(rows, rest);
  }

  // ---------------------------------------------------------------- round trips

  /** The decoder reads the row back, whatever follows, and comes to the same state. */
  predicate ReadsBack<R(==), S(==)>(enc: Encoder<R, S>, dec: Decoder<R, S>, row: R, st: S, rest: Buffer) {
    dec(enc(row, st).0 + rest, st) == Ok((row, enc(row, st).1), rest)
  }

  /** Every row, met in its state, is read back. */
  ghost predicate AllReadBack<R, S>(enc: Encoder<R, S>, dec: Decoder<R, S>, rows: seq<R>, st: S) {
    rows == [] || ((forall rest :: ReadsBack(enc, dec, rows[0], st, rest))
      && AllReadBack(enc, dec, rows[1..], enc(rows[0], st).1))
  }

  lemma {:induction false} RowsRoundTrip<R, S>(enc: Encoder<R, S>, dec: Decoder<R, S>, rows: seq<R>, st: S,
                                               rest: Buffer)
    requires AllReadBack(enc, dec, rows, st)
    ensures ParseRows(dec, RowsBytes(enc, rows, st) + rest, |rows|, st) == Ok(rows, rest)
  {
    if rows != [] {
      var (bytes, next) := enc(rows[0], st);
      var more := RowsBytes(enc, rows[1..], next);
      Regroup(bytes, more, rest);
      assert ReadsBack(enc, dec, rows[0], st, more + rest);
      RowsRoundTrip(enc, dec, rows[1..], next, rest);
      assert [rows[0]] + rows[1..] == rows;
    } else {
      assert RowsBytes(enc, rows, st) + rest == rest;
    }
  }

  lemma CountAndBody(n: nat, body: Buffer, rest: Buffer)
    requires n < 0x1_0000
    ensures var s := U16(n) + body + rest;
            |s| >= 2 && GetU16(s) == n && s[2..] == body + rest
  {
    Regroup(U16(n), body, rest);
    U16RoundTrip(n, body + rest);
  }

  /** A table of fewer than 65536 rows is read back, whatever follows it. */
  lemma TableRoundTrip<R, S>(enc: Encoder<R, S>, dec: Decoder<R, S>, rows: seq<R>, st: S, rest: Buffer)
    requires |rows| < 0x1_0000 && AllReadBack(enc, dec, rows, st)
    ensures ParseTable(dec, TableBytes(enc, rows, st) + rest, st) == Ok(rows, rest)
  {
    CountAndBody(|rows|, RowsBytes(enc, rows, st), rest);
    RowsRoundTrip(enc, dec, rows, st, rest);
  }

  /** The first row of a table is the row its first bytes decode to. */
  lemma FirstRow<R, S>(dec: Decoder<R, S>, s: Buffer, st: S, row: R, next: S, rest: Buffer)
    requires |s| >= 2 && GetU16(s) > 0 && dec(s[2..], st) == Ok((row, next), rest)
    ensures var r := ParseTable(dec, s, st);
            r.Ok? ==> r.value != [] && r.value[0] == row
  {
  }

  /** Reading rows leaves no more bytes than there were, if reading one row does. */
  lemma {:induction false} RowsShorten<R, S(!new)>(dec: Decoder<R, S>, s: Buffer, count: nat, st: S)
    requires forall b, t :: dec(b, t).Ok? ==> |dec(b, t).rest| <= |b|
    ensures ParseRows(dec, s, count, st).Ok? ==> |ParseRows(dec, s, count, st).rest| <= |s|
    decreases count
  {
    if count > 0 && dec(s, st).Ok? {
      RowsShorten(dec, dec(s, st).rest, count - 1, dec(s, st).value.1);
    }
  }

  lemma TableShortens<R, S(!new)>(dec: Decoder<R, S>, s: Buffer, st: S)
    requires forall b, t :: dec(b, t).Ok? ==> |dec(b, t).rest| <= |b|
    ensures ParseTable(dec, s, st).Ok? ==> |ParseTable(dec, s, st).rest| <= |s|
  {
    if |s| >= 2 { RowsShorten(dec, s[2..], GetU16(s), st); }
  }
}
