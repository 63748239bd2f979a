/**
  The validating constructors of the `entities` module of zipkin/src/lib.rs:
  every span field type has a `parse` that checks its input and an `extract`
  that gives the input back.

  The source's `SpanGenerationError` wraps a formatted message; here it is a
  datatype naming the rejected field and carrying the rejected input, which is
  what the message is built from. Fields a `parse` has validated are private
  in the source, so a value of `Duration` or `Port` can only come from `parse`;
  that invariant is the constraint of the corresponding subset type.

  The `components` module of old/zipkin/entities/src/lib.rs holds the same
  validators, differing only in deriving `Clone`; this module models both.
*/
module ZipkinEntities {
  import opened Wrappers
  import opened MachineInts
  import HexPattern

  datatype SpanGenerationError =
    | InvalidTraceId(id: string)
    | InvalidId(id: string)
    | UnrecognizedKind(kind: string)
    | InvalidDuration(duration: i64)
    | InvalidPort(port: i64)

  /** A 16-to-32-digit trace identifier. */
  datatype TraceId = TraceId(id: string)

  /** A 16-digit span identifier. */
  datatype Id = Id(id: string)

  datatype ParentId = ParentId(id: Id)

  datatype Kind = Client | Server | Producer | Consumer

  /** Microseconds; the Zipkin API's minimum is 1. */
  datatype DurationValue = Duration(micros: i64)
  type Duration = d: DurationValue | d.micros > 0 witness Duration(1)

  datatype PortValue = Port(number: i64)
  type Port = p: PortValue | p.number != 0 witness Port(1)

  datatype Endpoint = Endpoint(serviceName: Option<string>, ipv4: Option<string>, ipv6: Option<string>, port: Option<Port>)

  datatype Annotation = Annotation(timestamp: i64, value: string)

  /** Microseconds since the Unix epoch. */
  datatype ZipkinTimestamp = ZipkinTimestamp(micros: i64)

  /** `TraceId::parse`: the input must match `[a-f0-9]{16,32}` somewhere. */
  function ParseTraceId(id: string): (r: Result<TraceId, SpanGenerationError>)
    ensures r.Ok? <==> HexPattern.ContainsHexRun(id, 16)
    ensures r.Ok? ==> ExtractTraceId(r.value) == id
    ensures r.Err? ==> r.error == InvalidTraceId(id)
  {
    HexPattern.IsMatchIffRun(id, 16, 32);
    if HexPattern.IsMatch(id, 16, 32) then Ok(TraceId(id)) else Err(InvalidTraceId(id))
  }

  /** `TraceId::extract`. */
  function ExtractTraceId(t: TraceId): string
  {
    t.id
  }

  /** `Id::parse`: the input must match `[a-f0-9]{16}` somewhere. */
  function ParseId(id: string): (r: Result<Id, SpanGenerationError>)
    ensures r.Ok? <==> HexPattern.ContainsHexRun(id, 16)
    ensures r.Ok? ==> ExtractId(r.value) == id
    ensures r.Err? ==> r.error == InvalidId(id)
  {
    HexPattern.IsMatchIffRun(id, 16, 16);
    if HexPattern.IsMatch(id, 16, 16) then Ok(Id(id)) else Err(InvalidId(id))
  }

  /** `Id::extract`. */
  function ExtractId(i: Id): string
  {
    i.id
  }

  /**
    Despite their different repetition bounds, trace ids and span ids accept
    the same strings: a 40-digit id is a valid trace id, and so is a short
    word followed by 16 digits.
  */
  lemma TraceIdsAreIds(s: string)
    ensures ParseTraceId(s).Ok? <==> ParseId(s).Ok?
  {
  }

  /** Parsing what was extracted from a parsed id gives the same id back. */
  lemma IdRoundTrips(s: string)
    ensures ParseTraceId(s).Ok? ==> ParseTraceId(ExtractTraceId(ParseTraceId(s).value)) == ParseTraceId(s)
    ensures ParseId(s).Ok? ==> ParseId(ExtractId(ParseId(s).value)) == ParseId(s)
  {
  }

  /** What `Uuid::to_simple().encode_lower` produces: 32 lower-case hex digits. */
  predicate IsSimpleUuid(u: string)
  {
    |u| == 32 && HexPattern.HexRunAt(u, 0, 32)
  }

  /**
    `TraceId::generate_new`, given the random UUID it draws. `uuid_string(32)`
    stops after the first UUID, whose 32 digits are all kept.
  */
  function GenerateNewTraceId(uuid: string): (r: Result<TraceId, SpanGenerationError>)
    requires IsSimpleUuid(uuid)
    ensures r.Ok? && ExtractTraceId(r.value) == uuid
  {
    var s := uuid[..32];
    assert s == uuid;
    assert HexPattern.HexRunAt(s, 0, 16);
    ParseTraceId(s)
  }

  /** `Id::generate_new`: the first 16 digits of one random UUID. */
  function GenerateNewId(uuid: string): (r: Result<Id, SpanGenerationError>)
    requires IsSimpleUuid(uuid)
    ensures r.Ok? && ExtractId(r.value) == uuid[..16]
  {
    var s := uuid[..16];
    assert HexPattern.HexRunAt(s, 0, 16);
    ParseId(s)
  }

  /** `Kind::parse`: one of the four upper-case names. */
  function ParseKind(kind: string): (r: Result<Kind, SpanGenerationError>)
    ensures r.Ok? <==> kind in {"CLIENT", "SERVER", "PRODUCER", "CONSUMER"}
    ensures r.Ok? ==> ExtractKind(r.value) == kind
    ensures r.Err? ==> r.error == UnrecognizedKind(kind)
  {
    if kind == "CLIENT" then Ok(Client)
    else if kind == "SERVER" then Ok(Server)
    else if kind == "PRODUCER" then Ok(Producer)
    else if kind == "CONSUMER" then Ok(Consumer)
    else Err(UnrecognizedKind(kind))
  }

  /** `Kind::extract`. */
  function ExtractKind(k: Kind): string
  {
    match k
    case Client => "CLIENT"
    case Server => "SERVER"
    case Producer => "PRODUCER"
    case Consumer => "CONSUMER"
  }

  /** Every kind survives `extract` then `parse`; so `extract` is one-to-one. */
  lemma KindRoundTrip(k: Kind)
    ensures ParseKind(ExtractKind(k)) == Ok(k)
  {
  }

  /** Lower-case names are rejected. */
  lemma LowerCaseKindRejected()
    ensures ParseKind("client").Err?
  {
  }

  /** `Duration::parse`: at least one microsecond. */
  function ParseDuration(duration: i64): (r: Result<Duration, SpanGenerationError>)
    ensures r.Ok? <==> duration > 0
    ensures r.Ok? ==> ExtractDuration(r.value) == duration
    ensures r.Err? ==> r.error == InvalidDuration(duration)
  {
    if duration <= 0 then Err(InvalidDuration(duration)) else Ok(Duration(duration))
  }

  /** `Duration::extract`. */
  function ExtractDuration(d: Duration): i64
  {
    d.micros
  }

  lemma DurationRoundTrip(d: Duration)
    ensures ParseDuration(ExtractDuration(d)) == Ok(d)
  {
  }

  /** `Port::parse`: anything but zero, negative numbers included. */
  function ParsePort(port: i64): (r: Result<Port, SpanGenerationError>)
    ensures r.Ok? <==> port != 0
    ensures r.Ok? ==> ExtractPort(r.value) == port
    ensures r.Err? ==> r.error == InvalidPort(port)
  {
    if port == 0 then Err(InvalidPort(port)) else Ok(Port(port))
  }

  /** `Port::extract`. */
  function ExtractPort(p: Port): i64
  {
    p.number
  }

  lemma PortRoundTrip(p: Port)
    ensures ParsePort(ExtractPort(p)) == Ok(p)
  {
  }

  /** A negative port number passes validation. */
  lemma NegativePortAccepted()
    ensures ParsePort(-1).Ok?
  {
  }

  datatype ZipkinSpan = ZipkinSpan(
    traceId: TraceId,
    name: Option<string>,
    parentId: Option<ParentId>,
    id: Id,
    kind: Option<Kind>,
    timestamp: ZipkinTimestamp,
    duration: Duration,
    debug: bool,
    shared: bool,
    localEndpoint: Option<Endpoint>,
    remoteEndpoint: Option<Endpoint>,
    annotations: seq<Annotation>,
    tags: map<string, Option<string>>)

  /** The fields a span's builder does not take from its caller keep these values. */
  predicate HasBuildDefaults(s: ZipkinSpan)
  {
    s.kind.None? && !s.debug && !s.shared && s.localEndpoint.None? && s.remoteEndpoint.None?
  }

  /**
    `ZipkinSpan::build`: never fails, since every argument was validated when
    it was parsed; the caller's values are kept, the rest take defaults.
  */
  function BuildSpan(traceId: TraceId, id: Id, name: Option<string>, parentId: Option<ParentId>, timestamp: ZipkinTimestamp, duration: Duration, annotations: seq<Annotation>, tags: map<string, Option<string>>): (r: Result<ZipkinSpan, SpanGenerationError>)
    ensures r.Ok? && HasBuildDefaults(r.value)
    ensures r.value.traceId == traceId && r.value.id == id && r.value.name == name && r.value.parentId == parentId
    ensures r.value.timestamp == timestamp && r.value.duration == duration
    ensures r.value.annotations == annotations && r.value.tags == tags
  {
    Ok(ZipkinSpan(traceId, name, parentId, id, None, timestamp, duration, false, false, None, None, annotations, tags))
  }
}
