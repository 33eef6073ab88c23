/**
 * The sub-message stream inside a binary message: records of one type byte, one version byte, a
 * six-byte big-endian length and a body. The rewrite recomputes every length or leaves the payload alone.
 */
module SubMessages {
  import opened Bytes
  import opened BodyRewrite

  datatype Record = Record(kind: byte, version: byte, body: bytes)

  const HEADER: nat := 8

  predicate Fits(r: Record)
  {
    |r.body| < Pow256(6)
  }

  predicate AllFit(records: seq<Record>)
  {
    forall i :: 0 <= i < |records| ==> Fits(records[i])
  }

  function PrintRecord(r: Record): (b: bytes)
    requires Fits(r)
    ensures |b| == HEADER + |r.body|
  {
    [r.kind, r.version] + BigEndian(|r.body|, 6) + r.body
  }

  function Print(records: seq<Record>): bytes
    requires AllFit(records)
  {
    if records == [] then [] else PrintRecord(records[0]) + Print(records[1..])
  }

  lemma {:induction false} PrintAppend(a: seq<Record>, b: seq<Record>)
    requires AllFit(a) && AllFit(b)
    ensures AllFit(a + b) && Print(a + b) == Print(a) + Print(b)
  {
    hide PrintRecord, BigEndian, FromBigEndian, Pow256, First;
    if a == [] {
      assert a + b == b;
    } else {
      PrintAppend(a[1..], b);
      assert (a + b)[1..] == a[1..] + b;
    }
  }

  /** The record at the start of p, if p holds all of it. */
  function First(p: bytes): (r: Option<Record>)
    ensures r.Some? ==> Fits(r.value) && HEADER + |r.value.body| <= |p|
  {
    if |p| < HEADER then None
    else
      var n := FromBigEndian(p[2..HEADER]);
      if HEADER + n > |p| then None else Some(Record(p[0], p[1], p[HEADER..HEADER + n]))
  }

  lemma FirstOfPrinted(r: Record, rest: bytes)
    requires Fits(r)
    ensures First(PrintRecord(r) + rest) == Some(r)
  {
    var p := PrintRecord(r) + rest;
    DecodeEncode(|r.body|, 6);
    assert p[2..HEADER] == BigEndian(|r.body|, 6);
    assert p[HEADER..HEADER + |r.body|] == r.body;
  }

  lemma PrintedFirst(p: bytes)
    requires First(p).Some?
    ensures var r := First(p).value; PrintRecord(r) == p[..HEADER + |r.body|]
  {
    EncodeDecode(p[2..HEADER]);
    var r := First(p).value;
    assert p[..HEADER + |r.body|] == p[..2] + p[2..HEADER] + p[HEADER..HEADER + |r.body|];
  }

  datatype Scanned = Scanned(records: seq<Record>, rest: bytes)

  /** All complete records from the start of p, and what does not parse after them. */
  function Scan(p: bytes): (s: Scanned)
    ensures AllFit(s.records)
    decreases |p|
  {
    match First(p)
    case None => Scanned([], p)
    case Some(r) =>
      var s := Scan(p[HEADER + |r.body|..]);
      Scanned([r] + s.records, s.rest)
  }

  /** Scanning loses nothing: printing the records gives back the bytes they came from. */
  lemma {:induction false} PrintScan(p: bytes)
    ensures Print(Scan(p).records) + Scan(p).rest == p
    ensures First(Scan(p).rest).None?
    decreases |p|
  {
    hide PrintRecord, BigEndian, FromBigEndian, Pow256, First;
    if First(p).Some? {
      var r := First(p).value;
      PrintedFirst(p);
      PrintScan(p[HEADER + |r.body|..]);
      assert Scan(p).records[1..] == Scan(p[HEADER + |r.body|..]).records;
    }
  }

  lemma ScanFirst(r: Record, tail: bytes)
    requires Fits(r) && First(PrintRecord(r) + tail) == Some(r)
    ensures Scan(PrintRecord(r) + tail) == Scanned([r] + Scan(tail).records, Scan(tail).rest)
  {
    hide PrintRecord, First;
    assert (PrintRecord(r) + tail)[HEADER + |r.body|..] == tail;
  }

  /** Scanning finds exactly the printed records. */
  lemma {:induction false} ScanPrint(records: seq<Record>, rest: bytes)
    requires AllFit(records) && First(rest).None?
    ensures Scan(Print(records) + rest) == Scanned(records, rest)
  {
    hide PrintRecord, BigEndian, FromBigEndian, Pow256, First;
    if records == [] {
      assert Print(records) + rest == rest;
    } else {
      var tail := Print(records[1..]) + rest;
      ScanPrint(records[1..], rest);
      FirstOfPrinted(records[0], tail);
      Associate(PrintRecord(records[0]), Print(records[1..]), rest);
      ScanFirst(records[0], tail);
    }
  }

  // ---------------------------------------------------------------- the rewrite

  /** `int.to_bytes` raises OverflowError when a rewritten body no longer fits its length field. */
  datatype Outcome = Done(payload: bytes) | Overflow

  function RewriteRecord(r: Record): Record
  {
    r.(body := Rewrite(r.body))
  }

  function RewriteRecords(records: seq<Record>): (out: seq<Record>)
    ensures |out| == |records|
    ensures forall i :: 0 <= i < |out| ==> out[i] == RewriteRecord(records[i])
  {
    seq(|records|, i requires 0 <= i < |records| => RewriteRecord(records[i]))
  }

  function RewritePayload(p: bytes): Outcome
  {
    var s := Scan(p);
    var out := RewriteRecords(s.records);
    if !AllFit(out) then Overflow
    else if s.rest == [] then Done(Print(out))
    else Done(p)
  }

  method RewriteSubmessages(payload: bytes) returns (r: Outcome)
    ensures r == RewritePayload(payload)
    ensures forall records | AllFit(records) && AllClean(records) && Print(records) == payload :: r == Done(payload)
  {
    CleanPayloadStays(payload);
    hide Scan, First, BigEndian, FromBigEndian, Pow256, Rewrite;
    var out: bytes := [];
    var i := 0;
    ghost var seen: seq<Record> := [];
    assert payload[0..] == payload;
    while i < |payload|
      invariant 0 <= i <= |payload|
      invariant ScannedTo(payload, i, seen)
      invariant AllFit(RewriteRecords(seen)) && out == Print(RewriteRecords(seen))
      decreases |payload| - i
    {
      FirstFrom(payload, i);
      if i + 8 > |payload| {
        StopScan(payload, i, seen);
        return Done(payload);
      }
      var kind, version := payload[i], payload[i + 1];
      var n := FromBigEndian(payload[i + 2..i + 8]);
      var bodyEnd := i + 8 + n;
      if bodyEnd > |payload| {
        StopScan(payload, i, seen);
        return Done(payload);
      }
      var body := payload[i + 8..bodyEnd];
      var newBody := RewriteBody(body);
      ghost var rec := Record(kind, version, body);
      ContinueScan(payload, i, seen, rec);
      if |newBody| >= Pow256(6) {
        assert RewriteRecords(Scan(payload).records)[|seen|] == RewriteRecord(rec);
        return Overflow;
      }
      out := out + [kind, version];
      out := out + BigEndian(|newBody|, 6);
      out := out + newBody;
      PrintOneMore(seen, rec);
      seen := seen + [rec];
      i := bodyEnd;
    }
    FirstFrom(payload, i);
    StopScan(payload, i, seen);
    r := Done(out);
  }

  /** The scan of p consists of the records seen so far and the scan of what follows position i. */
  ghost predicate ScannedTo(p: bytes, i: nat, seen: seq<Record>)
    requires i <= |p|
  {
    Scan(p) == Scanned(seen + Scan(p[i..]).records, Scan(p[i..]).rest)
  }

  /** The record at position i, read off p itself. */
  lemma FirstFrom(p: bytes, i: nat)
    requires i <= |p|
    ensures First(p[i..]) ==
            if i + HEADER > |p| || i + HEADER + FromBigEndian(p[i + 2..i + HEADER]) > |p| then None
            else
              var n := FromBigEndian(p[i + 2..i + HEADER]);
              Some(Record(p[i], p[i + 1], p[i + HEADER..i + HEADER + n]))
  {
    hide FromBigEndian;
    if i + HEADER <= |p| {
      var n := FromBigEndian(p[i + 2..i + HEADER]);
      assert p[i..][2..HEADER] == p[i + 2..i + HEADER];
      if i + HEADER + n <= |p| {
        assert p[i..][HEADER..HEADER + n] == p[i + HEADER..i + HEADER + n];
      }
    }
  }

  lemma StopScan(p: bytes, i: nat, seen: seq<Record>)
    requires i <= |p| && ScannedTo(p, i, seen)
    requires First(p[i..]).None?
    ensures Scan(p) == Scanned(seen, p[i..])
  {
  }

  lemma ContinueScan(p: bytes, i: nat, seen: seq<Record>, rec: Record)
    requires i <= |p| && ScannedTo(p, i, seen)
    requires First(p[i..]) == Some(rec)
    ensures i + HEADER + |rec.body| <= |p|
    ensures ScannedTo(p, i + HEADER + |rec.body|, seen + [rec])
    ensures |Scan(p).records| > |seen| && Scan(p).records[|seen|] == rec
  {
    hide First;
    var next := p[i + HEADER + |rec.body|..];
    assert p[i..][HEADER + |rec.body|..] == next;
    var ahead := Scan(next).records;
    assert Scan(p[i..]).records == [rec] + ahead;
    assert seen + ([rec] + ahead) == (seen + [rec]) + ahead;
  }

  lemma PrintOneMore(seen: seq<Record>, rec: Record)
    requires AllFit(RewriteRecords(seen)) && Fits(RewriteRecord(rec))
    ensures AllFit(RewriteRecords(seen + [rec]))
    ensures Print(RewriteRecords(seen + [rec])) == Print(RewriteRecords(seen)) + PrintRecord(RewriteRecord(rec))
  {
    assert RewriteRecords(seen + [rec]) == RewriteRecords(seen) + [RewriteRecord(rec)];
    PrintAppend(RewriteRecords(seen), [RewriteRecord(rec)]);
    assert Print([RewriteRecord(rec)]) == PrintRecord(RewriteRecord(rec)) + Print([]);
  }

  /** A record of the payload, well formed or not behind it, whose rewritten body no longer fits its length field. */
  predicate Outgrows(p: bytes)
  {
    exists i :: 0 <= i < |Scan(p).records| && |Rewrite(Scan(p).records[i].body)| >= Pow256(6)
  }

  /** The rewrite fails exactly if one of the complete records, whatever follows it, outgrows its length field. */
  lemma OverflowsExactly(p: bytes)
    ensures RewritePayload(p) == Overflow <==> Outgrows(p)
  {
    hide Scan, Rewrite, Pow256;
    var records := Scan(p).records;
    assert forall i :: 0 <= i < |records| ==> RewriteRecords(records)[i].body == Rewrite(records[i].body);
  }

  /**
   * A payload made of records comes out as the same records: record i keeps its type and version and has its body
   * rewritten. If one of the rewritten bodies does not fit its length field, the rewrite fails.
   */
  lemma RecordsAreMapped(records: seq<Record>, out: seq<Record>)
    requires AllFit(records) && |out| == |records|
    requires forall i :: 0 <= i < |out| ==>
                           && out[i].kind == records[i].kind && out[i].version == records[i].version
                           && out[i].body == Rewrite(records[i].body)
    ensures RewritePayload(Print(records)) == if AllFit(out) then Done(Print(out)) else Overflow
  {
    ScanPrint(records, []);
    assert Print(records) + [] == Print(records);
    assert out == RewriteRecords(records);
  }

  /** The bytes of one record: type, version, six bytes of length, body. */
  lemma OneRecord(kind: byte, version: byte, body: bytes)
    requires |body| < 0x1_0000_0000_0000 && |Rewrite(body)| < 0x1_0000_0000_0000
    ensures |body| < Pow256(6) && |Rewrite(body)| < Pow256(6)
    ensures RewritePayload([kind, version] + BigEndian(|body|, 6) + body) ==
            Done([kind, version] + BigEndian(|Rewrite(body)|, 6) + Rewrite(body))
  {
    hide Rewrite, BigEndian, Pow256, RewritePayload;
    FieldLimits();
    var r, s := Record(kind, version, body), Record(kind, version, Rewrite(body));
    RecordsAreMapped([r], [s]);
    PrintOne(r);
    PrintOne(s);
  }

  lemma PrintOne(r: Record)
    requires Fits(r)
    ensures AllFit([r]) && Print([r]) == [r.kind, r.version] + BigEndian(|r.body|, 6) + r.body
  {
    assert Print([r]) == PrintRecord(r) + Print([]);
  }

  ghost predicate AllClean(records: seq<Record>)
  {
    forall i :: 0 <= i < |records| ==> Clean(records[i].body)
  }

  lemma CleanPayloadStays(payload: bytes)
    ensures forall records | AllFit(records) && AllClean(records) && Print(records) == payload ::
              RewritePayload(payload) == Done(payload)
  {
    hide RewritePayload, AllClean;
    forall records | AllFit(records) && AllClean(records) && Print(records) == payload
      ensures RewritePayload(payload) == Done(payload)
    {
      CleanRecordsStay(records);
    }
  }

  /** Records without old strings come out byte for byte. */
  lemma CleanRecordsStay(records: seq<Record>)
    requires AllFit(records) && AllClean(records)
    ensures RewritePayload(Print(records)) == Done(Print(records))
  {
    hide Clean, Rewrite;
    forall i | 0 <= i < |records| ensures Rewrite(records[i].body) == records[i].body {
      CleanIsFixed(records[i].body);
    }
    RecordsAreMapped(records, records);
  }

  /** A payload that is not a sequence of records comes out byte for byte, unless one of its first records outgrows. */
  lemma OthersAreUntouched(p: bytes)
    requires forall records | AllFit(records) :: Print(records) != p
    ensures RewritePayload(p) == if Outgrows(p) then Overflow else Done(p)
  {
    hide Outgrows;
    OverflowsExactly(p);
    PrintScan(p);
    assert Print(Scan(p).records) + [] == Print(Scan(p).records);
  }

  // ---------------------------------------------------------------- length

  lemma {:induction false} PrintLength(records: seq<Record>)
    requires AllFit(records)
    ensures forall i :: 0 <= i < |records| ==> |records[i].body| <= |Print(records)|
    ensures AllFit(RewriteRecords(records)) ==>
              9 * |Print(RewriteRecords(records))| <= 10 * |Print(records)|
  {
    if records != [] {
      PrintLength(records[1..]);
      GrowthBound(records[0].body);
      assert RewriteRecords(records)[1..] == RewriteRecords(records[1..]);
      forall i | 0 <= i < |records| ensures |records[i].body| <= |Print(records)| {
        assert i > 0 ==> records[i] == records[1..][i - 1];
      }
    }
  }

  /** Below nine tenths of 2^48 bytes no length field can overflow and the payload grows by at most a ninth. */
  lemma NoOverflow(p: bytes)
    requires 10 * |p| < 9 * Pow256(6)
    ensures RewritePayload(p).Done?
    ensures 9 * |RewritePayload(p).payload| <= 10 * |p|
  {
    var s := Scan(p);
    PrintScan(p);
    PrintLength(s.records);
    forall i | 0 <= i < |s.records| ensures Fits(RewriteRecords(s.records)[i]) {
      GrowthBound(s.records[i].body);
    }
  }
}
