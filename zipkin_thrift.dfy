/**
 * The Zipkin wire structures the exporter fills in (the Thrift-generated
 * `com.twitter.zipkin.gen` classes), restricted to the fields the exporter
 * sets, and the standard Zipkin annotation values it records.
 */
module ZipkinThrift {
  import opened JavaLang

  /** The network identity attached to every annotation: ipv4 as an `int`, port as a `short`. */
  datatype Endpoint = Endpoint(ipv4: Int, port: Short, serviceName: NullableString)

  /** Zipkin's type tags for binary annotation values. */
  datatype AnnotationType = Bool | Bytes | I16 | I32 | I64 | Double | String

  /** A timestamped event on the wire; the timestamp is in microseconds. */
  datatype Annotation = Annotation(timestamp: Long, value: JString, host: Endpoint)

  /** A key/value tag on the wire; `value` is None while it is unset. */
  datatype BinaryAnnotation = BinaryAnnotation(
    key: JString,
    value: Option<seq<bv8>>,
    annotationType: AnnotationType,
    host: Endpoint)

  /** A wire span. `parentId` and `name` are None while unset. */
  datatype WireSpan = WireSpan(
    traceId: Long,
    name: NullableString,
    id: Long,
    parentId: Option<Long>,
    annotations: seq<Annotation>,
    binaryAnnotations: seq<BinaryAnnotation>)

  /** What a freshly allocated wire span holds before any setter runs. */
  const FRESH_SPAN: WireSpan := WireSpan(0, None, 0, None, [], [])

  /** Zipkin's "cs" (client send). */
  const CLIENT_SEND: JString := [0x63, 0x73]
  /** Zipkin's "cr" (client receive). */
  const CLIENT_RECV: JString := [0x63, 0x72]
  /** Zipkin's "ss" (server send). */
  const SERVER_SEND: JString := [0x73, 0x73]
  /** Zipkin's "sr" (server receive). */
  const SERVER_RECV: JString := [0x73, 0x72]
}
