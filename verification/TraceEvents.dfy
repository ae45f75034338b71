/** The table of trace events: its byte keys, the key range behind a time range, and
    what is aggregated over one. */
module TraceEvents {
  import opened Bytes
  import opened StackTraces

  const U64_MAX: u64 := 0xFFFF_FFFF_FFFF_FFFF

  datatype SampleKind = Unknown | Mixed | OnCPU | OffCPU | UProbe | MaxKind

  /** `kind as u8` */
  function KindByte(k: SampleKind): byte {
    match k
    case Unknown => 0
    case Mixed => 1
    case OnCPU => 2
    case OffCPU => 3
    case UProbe => 4
    case MaxKind => 5
  }

  /** `SampleKind::try_from(b).unwrap_or(SampleKind::Unknown)` */
  function KindOf(b: byte): SampleKind {
    if b == 1 then Mixed
    else if b == 2 then OnCPU
    else if b == 3 then OffCPU
    else if b == 4 then UProbe
    else Unknown
  }

  datatype TraceCountId = TraceCountId(timestamp: u64, kind: SampleKind, id: u64)

  datatype TraceCount = TraceCount(traceHash: TraceHash, count: nat, comm: string)

  // -------------------------------------------------------------------- keys

  /** The key's bytes: timestamp big-endian, id little-endian, kind. */
  ghost function RawKey(k: TraceCountId): (raw: seq<byte>)
    ensures |raw| == 17
  {
    BigEndian(k.timestamp, 8) + (LittleEndian(k.id, 8) + [KindByte(k.kind)])
  }

  /** `TraceCountId::from_raw` */
  function FromRaw(raw: seq<byte>): TraceCountId
    requires |raw| == 17 && FromBigEndian(raw[0..8]) <= U64_MAX && FromLittleEndian(raw[8..16]) <= U64_MAX
  {
    TraceCountId(FromBigEndian(raw[0..8]), KindOf(raw[16]), FromLittleEndian(raw[8..16]))
  }

  /** `TraceCountId::into_raw`: three copies into a zeroed buffer. */
  method IntoRaw(k: TraceCountId) returns (buf: array<byte>)
    ensures buf[..] == RawKey(k)
  {
    buf := new byte[17](_ => 0);
    CopyInto(buf, 0, BigEndian(k.timestamp, 8));
    CopyInto(buf, 8, LittleEndian(k.id, 8));
    buf[16] := KindByte(k.kind);
    assert buf[..] == buf[0..8] + (buf[8..16] + [buf[16]]);
  }

  method CopyInto(buf: array<byte>, at: nat, bytes: seq<byte>)
    requires at + |bytes| <= buf.Length
    modifies buf
    ensures buf[at..at + |bytes|] == bytes
    ensures forall i | 0 <= i < buf.Length && !(at <= i < at + |bytes|) :: buf[i] == old(buf[i])
  {
    forall i | 0 <= i < |bytes| {
      buf[at + i] := bytes[i];
    }
  }

  lemma {:induction false} RawParts(k: TraceCountId)
    ensures
      var raw := RawKey(k);
      raw[0..8] == BigEndian(k.timestamp, 8) && raw[8..16] == LittleEndian(k.id, 8) && raw[16] == KindByte(k.kind)
  {
  }

  /** Byte by byte: the timestamp's digits in base 256 from the highest on, those of the
      id from the lowest on, and the number of the kind. */
  lemma {:induction false} KeyBytesAre(k: TraceCountId, i: nat)
    requires i < 8
    ensures RawKey(k)[7 - i] == k.timestamp / Pow256(i) % 256
    ensures RawKey(k)[8 + i] == k.id / Pow256(i) % 256
    ensures RawKey(k)[16] ==
      match k.kind case Unknown => 0 case Mixed => 1 case OnCPU => 2 case OffCPU => 3 case UProbe => 4 case MaxKind => 5
  {
    BigEndianDigits(k.timestamp, 8, i);
    LittleEndianDigits(k.id, 8, i);
    assert RawKey(k)[8 + i] == LittleEndian(k.id, 8)[i];
  }

  /** Keys read back as they were written, for exactly the kinds a record can have. */
  lemma {:induction false} KeyRoundTrip(k: TraceCountId)
    ensures
      var raw := RawKey(k);
      && FromBigEndian(raw[0..8]) <= U64_MAX && FromLittleEndian(raw[8..16]) <= U64_MAX
      && (FromRaw(raw) == k <==> k.kind != MaxKind)
      && FromRaw(raw) == k.(kind := if k.kind == MaxKind then Unknown else k.kind)
  {
    WordSizes();
    RawParts(k);
    BigEndianRoundTrip(k.timestamp, 8);
    LittleEndianRoundTrip(k.id, 8);
  }
}
