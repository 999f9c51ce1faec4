/**
 * The Zipkin exporter: converts a Sleuth span into a Zipkin wire span, and
 * reacts to span lifecycle events by adding timeline markers to the span
 * and, on release or on a remote parent's server-send, handing the
 * converted span to the collector.
 *
 * The endpoint lookup and the UTF-8 encoder are collaborators whose code is
 * not part of this model; they are taken as function-valued constants of
 * the listener. The clock that stamps timeline markers is a parameter.
 */
module ZipkinExport {
  import opened JavaLang
  import opened Hashing
  import opened ZipkinThrift
  import opened Sleuth

  /** `String.getBytes("UTF-8")`; None when it throws UnsupportedEncodingException. */
  type Utf8Encoder = JString -> Option<seq<bv8>>

  /** `EndpointLocator.locate`, applied to the span as it is when conversion begins. */
  type EndpointLocator = SpanView -> Endpoint

  /** The marker "acquire". */
  const ACQUIRE: JString := [0x61, 0x63, 0x71, 0x75, 0x69, 0x72, 0x65]
  /** The marker "release". */
  const RELEASE: JString := [0x72, 0x65, 0x6C, 0x65, 0x61, 0x73, 0x65]

  /** The largest millisecond magnitude whose microsecond value still fits in a `long`. */
  const MAX_EXACT_MILLIS: int := LONG_MAX / 1000

  /**
   * One wire annotation for a timeline marker: the label, the endpoint, and
   * the millisecond time converted to microseconds (`time * 1000`, wrapping
   * like Java `long`). Both values of `sendRequest` give the same result.
   */
  function CreateZipkinAnnotation(value: JString, time: Long, endpoint: Endpoint, sendRequest: bool): (a: Annotation)
    ensures a.value == value && a.host == endpoint
    ensures Congruent(a.timestamp, time * 1000)
    ensures -MAX_EXACT_MILLIS <= time <= MAX_EXACT_MILLIS ==> a.timestamp == time * 1000
  {
    if sendRequest then
      Annotation(LongMul(time, 1000), value, endpoint)
    else
      Annotation(LongMul(time, 1000), value, endpoint)
  }

  /** The wire annotations of a timeline, in timeline order. */
  function WireAnnotations(timeline: seq<TimelineAnnotation>, endpoint: Endpoint): seq<Annotation>
  {
    if |timeline| == 0 then []
    else
      var ta := timeline[|timeline| - 1];
      WireAnnotations(timeline[..|timeline| - 1], endpoint)
        + [CreateZipkinAnnotation(ta.msg, ta.time, endpoint, true)]
  }

  /** The binary annotation for one map entry: a STRING tag whose value is the UTF-8 encoding, if any. */
  function CreateBinaryAnnotation(key: JString, value: JString, endpoint: Endpoint, encode: Utf8Encoder): BinaryAnnotation
  {
    BinaryAnnotation(key, encode(value), String, endpoint)
  }

  /** The binary annotations of the map m, visiting its keys in the order `keys`. */
  function WireBinaryAnnotations(keys: seq<JString>, m: map<JString, JString>, endpoint: Endpoint,
                                 encode: Utf8Encoder): seq<BinaryAnnotation>
    requires forall i :: 0 <= i < |keys| ==> keys[i] in m
  {
    if |keys| == 0 then []
    else
      var k := keys[|keys| - 1];
      WireBinaryAnnotations(keys[..|keys| - 1], m, endpoint, encode)
        + [CreateBinaryAnnotation(k, m[k], endpoint, encode)]
  }

  /** The wire span a Sleuth span converts to, given the endpoint found for it. */
  function ConvertSpec(v: SpanView, endpoint: Endpoint, encode: Utf8Encoder): WireSpan
    requires v.Valid()
  {
    WireSpan(
      traceId := HashOf(v.traceId),
      name := if HasText(v.name) then v.name else None,
      id := HashOf(v.spanId),
      parentId := if |v.parents| > 0 then Some(HashOf(v.parents[0])) else None,
      annotations := WireAnnotations(v.timeline, endpoint),
      binaryAnnotations := WireBinaryAnnotations(v.keyOrder, v.annotations, endpoint, encode))
  }

  /**
   * The wire annotations correspond one to one, in order, to the timeline:
   * same label, microsecond timestamp, and the single endpoint.
   */
  lemma {:induction false} WireAnnotationsAt(timeline: seq<TimelineAnnotation>, endpoint: Endpoint)
    ensures |WireAnnotations(timeline, endpoint)| == |timeline|
    ensures forall i :: 0 <= i < |timeline| ==>
              && WireAnnotations(timeline, endpoint)[i].value == timeline[i].msg
              && WireAnnotations(timeline, endpoint)[i].timestamp == LongMul(timeline[i].time, 1000)
              && WireAnnotations(timeline, endpoint)[i].host == endpoint
    decreases |timeline|
  {
    if |timeline| > 0 {
      var prefix := timeline[..|timeline| - 1];
      WireAnnotationsAt(prefix, endpoint);
      assert forall i :: 0 <= i < |prefix| ==> prefix[i] == timeline[i];
    }
  }

  /** The binary annotations correspond one to one, in order, to the visited keys. */
  lemma {:induction false} WireBinaryAnnotationsAt(keys: seq<JString>, m: map<JString, JString>,
                                                   endpoint: Endpoint, encode: Utf8Encoder)
    requires forall i :: 0 <= i < |keys| ==> keys[i] in m
    ensures |WireBinaryAnnotations(keys, m, endpoint, encode)| == |keys|
    ensures forall i :: 0 <= i < |keys| ==>
              && WireBinaryAnnotations(keys, m, endpoint, encode)[i].key == keys[i]
              && WireBinaryAnnotations(keys, m, endpoint, encode)[i].value == encode(m[keys[i]])
              && WireBinaryAnnotations(keys, m, endpoint, encode)[i].annotationType == String
              && WireBinaryAnnotations(keys, m, endpoint, encode)[i].host == endpoint
    decreases |keys|
  {
    if |keys| > 0 {
      var prefix := keys[..|keys| - 1];
      WireBinaryAnnotationsAt(prefix, m, endpoint, encode);
      assert forall i :: 0 <= i < |prefix| ==> prefix[i] == keys[i];
    }
  }

  /** A sequence without repetitions has as many distinct elements as it has positions. */
  lemma {:induction false} DistinctCardinality(keys: seq<JString>)
    requires forall i, j :: 0 <= i < j < |keys| ==> keys[i] != keys[j]
    ensures |set k | k in keys| == |keys|
    decreases |keys|
  {
    if |keys| > 0 {
      var rest := keys[1..];
      DistinctCardinality(rest);
      assert (set k | k in keys) == {keys[0]} + (set k | k in rest);
      assert keys[0] !in (set k | k in rest);
    }
  }

  /**
   * Exactly one binary annotation per map entry: as many as the map has
   * entries, every key of the map appears once, and each carries that
   * key's encoded value.
   */
  lemma WireBinaryAnnotationsCoverMap(keys: seq<JString>, m: map<JString, JString>,
                                      endpoint: Endpoint, encode: Utf8Encoder)
    requires EntryOrder(keys, m)
    ensures var bs := WireBinaryAnnotations(keys, m, endpoint, encode);
      && |bs| == |m|
      && (forall i, j :: 0 <= i < j < |bs| ==> bs[i].key != bs[j].key)
      && (forall k :: k in m ==> exists i :: 0 <= i < |bs| && bs[i].key == k)
      && (forall i :: 0 <= i < |bs| ==> bs[i].key in m && bs[i].value == encode(m[bs[i].key]))
  {
    var bs := WireBinaryAnnotations(keys, m, endpoint, encode);
    WireBinaryAnnotationsAt(keys, m, endpoint, encode);
    DistinctCardinality(keys);
    assert m.Keys == set k | k in keys;
    forall k | k in m ensures exists i :: 0 <= i < |bs| && bs[i].key == k {
      var i :| 0 <= i < |keys| && keys[i] == k;
      assert bs[i].key == k;
    }
  }

  /**
   * What conversion promises: ids hashed, only the first parent kept and
   * the parent set exactly when there is one, the name set exactly when it
   * has text, and the two annotation lists in correspondence with the
   * timeline and the map, all on one endpoint.
   */
  lemma ConvertSpecMeaning(v: SpanView, endpoint: Endpoint, encode: Utf8Encoder)
    requires v.Valid()
    ensures var w := ConvertSpec(v, endpoint, encode);
      && w.traceId == HashOf(v.traceId)
      && w.id == HashOf(v.spanId)
      && (w.parentId.Some? <==> |v.parents| > 0)
      && (|v.parents| > 0 ==> w.parentId.value == HashOf(v.parents[0]))
      && (w.name.Some? <==> HasText(v.name))
      && (HasText(v.name) ==> w.name == v.name)
      && |w.annotations| == |v.timeline|
      && (forall i :: 0 <= i < |v.timeline| ==>
            && w.annotations[i].value == v.timeline[i].msg
            && w.annotations[i].timestamp == LongMul(v.timeline[i].time, 1000)
            && w.annotations[i].host == endpoint)
      && |w.binaryAnnotations| == |v.annotations|
      && (forall k :: k in v.annotations ==> exists i :: 0 <= i < |w.binaryAnnotations| && w.binaryAnnotations[i].key == k)
      && (forall i :: 0 <= i < |w.binaryAnnotations| ==>
            && w.binaryAnnotations[i].key in v.annotations
            && w.binaryAnnotations[i].value == encode(v.annotations[w.binaryAnnotations[i].key])
            && w.binaryAnnotations[i].annotationType == String
            && w.binaryAnnotations[i].host == endpoint)
  {
    WireAnnotationsAt(v.timeline, endpoint);
    WireBinaryAnnotationsAt(v.keyOrder, v.annotations, endpoint, encode);
    WireBinaryAnnotationsCoverMap(v.keyOrder, v.annotations, endpoint, encode);
  }

  /** A timeline whose last marker is (t, msg) converts to annotations whose last one is that marker in microseconds. */
  lemma LastMarkerExported(timeline: seq<TimelineAnnotation>, t: Long, msg: JString, endpoint: Endpoint)
    ensures var ws := WireAnnotations(timeline + [TimelineAnnotation(t, msg)], endpoint);
      && |ws| == |timeline| + 1
      && ws[|timeline|] == Annotation(LongMul(t, 1000), msg, endpoint)
      && ws[..|timeline|] == WireAnnotations(timeline, endpoint)
  {
    var full := timeline + [TimelineAnnotation(t, msg)];
    assert full[..|timeline|] == timeline;
    WireAnnotationsAt(timeline, endpoint);
  }

  /** The collector sink: an append-only log of the wire spans handed to it. */
  class SpanCollector {
    var collected: seq<WireSpan>

    constructor ()
      ensures collected == []
    {
      collected := [];
    }

    method Collect(span: WireSpan)
      modifies this
      ensures collected == old(collected) + [span]
    {
      collected := collected + [span];
    }
  }

  class ZipkinSpanListener {
    const spanCollector: SpanCollector
    const endpointLocator: EndpointLocator
    const encode: Utf8Encoder

    constructor (spanCollector: SpanCollector, endpointLocator: EndpointLocator, encode: Utf8Encoder)
      ensures this.spanCollector == spanCollector
      ensures this.endpointLocator == endpointLocator && this.encode == encode
    {
      this.spanCollector := spanCollector;
      this.endpointLocator := endpointLocator;
      this.encode := encode;
    }

    /** The wire span `Convert` builds for a span in state v. */
    function Conversion(v: SpanView): WireSpan
      requires v.Valid()
    {
      ConvertSpec(v, endpointLocator(v), encode)
    }

    /** Fills a fresh wire span through its setters. */
    method Convert(span: Span) returns (zipkinSpan: WireSpan)
      requires span.Valid()
      ensures zipkinSpan == Conversion(span.View())
    {
      zipkinSpan := FRESH_SPAN;
      var ep := endpointLocator(span.View());
      var annotationList := CreateZipkinAnnotations(span, ep);
      var binaryAnnotationList := CreateZipkinBinaryAnnotations(span, ep);
      var traceId := Hash(span.traceId);
      zipkinSpan := zipkinSpan.(traceId := traceId);
      if |span.parents| > 0 {
        // With more than one parent an error is logged and the first one is kept.
        var parentId := Hash(span.parents[0]);
        zipkinSpan := zipkinSpan.(parentId := Some(parentId));
      }
      var id := Hash(span.spanId);
      zipkinSpan := zipkinSpan.(id := id);
      if HasText(span.name) {
        zipkinSpan := zipkinSpan.(name := span.name);
      }
      zipkinSpan := zipkinSpan.(annotations := annotationList);
      zipkinSpan := zipkinSpan.(binaryAnnotations := binaryAnnotationList);
    }

    /** One wire annotation per timeline marker, appended in timeline order. */
    method CreateZipkinAnnotations(span: Span, endpoint: Endpoint) returns (annotationList: seq<Annotation>)
      ensures annotationList == WireAnnotations(span.timeline, endpoint)
    {
      annotationList := [];
      var timeline := span.timeline;
      for i := 0 to |timeline|
        invariant annotationList == WireAnnotations(timeline[..i], endpoint)
      {
        assert timeline[..i + 1][..i] == timeline[..i];
        var ta := timeline[i];
        var zipkinAnnotation := CreateZipkinAnnotation(ta.msg, ta.time, endpoint, true);
        annotationList := annotationList + [zipkinAnnotation];
      }
      assert timeline[..|timeline|] == timeline;
    }

    /**
     * One STRING binary annotation per map entry, in entry order. When the
     * encoder fails the annotation is still appended, with its value unset.
     */
    method CreateZipkinBinaryAnnotations(span: Span, endpoint: Endpoint) returns (l: seq<BinaryAnnotation>)
      requires span.Valid()
      ensures l == WireBinaryAnnotations(span.keyOrder, span.annotations, endpoint, encode)
    {
      l := [];
      var keys := span.keyOrder;
      for i := 0 to |keys|
        invariant l == WireBinaryAnnotations(keys[..i], span.annotations, endpoint, encode)
      {
        assert keys[..i + 1][..i] == keys[..i];
        var key := keys[i];
        var binaryAnn := BinaryAnnotation(key, None, String, endpoint);
        var bytes := encode(span.annotations[key]);
        if bytes.Some? {
          binaryAnn := binaryAnn.(value := bytes);
        }
        // otherwise the encoding error is logged and the value stays unset
        l := l + [binaryAnn];
      }
      assert keys[..|keys|] == keys;
    }

    /** Acquire: mark the span; nothing is collected. */
    method Start(span: Span, now: Long)
      modifies span
      ensures span.timeline == old(span.timeline) + [TimelineAnnotation(now, ACQUIRE)]
      ensures spanCollector.collected == old(spanCollector.collected)
    {
      span.AddTimelineAnnotation(ACQUIRE, now);
    }

    /** Server receive: mark the parent only when it is present and remote. */
    method ServerReceived(parent: Span?, now: Long)
      modifies parent
      ensures parent != null && parent.remote ==>
                parent.timeline == old(parent.timeline) + [TimelineAnnotation(now, SERVER_RECV)]
      ensures parent != null && !parent.remote ==> parent.timeline == old(parent.timeline)
      ensures spanCollector.collected == old(spanCollector.collected)
    {
      if parent != null && parent.remote {
        parent.AddTimelineAnnotation(SERVER_RECV, now);
      }
    }

    /** Client send: mark the span; nothing is collected. */
    method ClientSend(span: Span, now: Long)
      modifies span
      ensures span.timeline == old(span.timeline) + [TimelineAnnotation(now, CLIENT_SEND)]
      ensures spanCollector.collected == old(spanCollector.collected)
    {
      span.AddTimelineAnnotation(CLIENT_SEND, now);
    }

    /** Client receive: mark the span; nothing is collected. */
    method ClientReceive(span: Span, now: Long)
      modifies span
      ensures span.timeline == old(span.timeline) + [TimelineAnnotation(now, CLIENT_RECV)]
      ensures spanCollector.collected == old(spanCollector.collected)
    {
      span.AddTimelineAnnotation(CLIENT_RECV, now);
    }

    /**
     * Server send: when the parent is present and remote, mark it and
     * collect its conversion, which ends with the server-send marker;
     * otherwise change nothing.
     */
    method ServerSend(parent: Span?, now: Long)
      requires parent != null ==> parent.Valid()
      modifies parent, spanCollector
      ensures parent != null && parent.remote ==>
                && parent.timeline == old(parent.timeline) + [TimelineAnnotation(now, SERVER_SEND)]
                && spanCollector.collected == old(spanCollector.collected) + [Conversion(parent.View())]
      ensures parent != null && parent.remote ==>
                var ws := Conversion(parent.View()).annotations;
                |ws| == |parent.timeline| && ws[|ws| - 1] == Annotation(LongMul(now, 1000), SERVER_SEND, endpointLocator(parent.View()))
      ensures parent != null && !parent.remote ==> parent.timeline == old(parent.timeline)
      ensures !(parent != null && parent.remote) ==> spanCollector.collected == old(spanCollector.collected)
    {
      if parent != null && parent.remote {
        ghost var before := parent.timeline;
        parent.AddTimelineAnnotation(SERVER_SEND, now);
        var w := Convert(parent);
        LastMarkerExported(before, now, SERVER_SEND, endpointLocator(parent.View()));
        spanCollector.Collect(w);
      }
    }

    /**
     * Release: mark the span "release", then collect exactly one wire span,
     * its conversion, whose last annotation is that marker.
     */
    method Release(span: Span, now: Long)
      requires span.Valid()
      modifies span, spanCollector
      ensures span.timeline == old(span.timeline) + [TimelineAnnotation(now, RELEASE)]
      ensures spanCollector.collected == old(spanCollector.collected) + [Conversion(span.View())]
      ensures var ws := Conversion(span.View()).annotations;
              |ws| == |span.timeline| && ws[|ws| - 1] == Annotation(LongMul(now, 1000), RELEASE, endpointLocator(span.View()))
    {
      ghost var before := span.timeline;
      span.AddTimelineAnnotation(RELEASE, now);
      var w := Convert(span);
      LastMarkerExported(before, now, RELEASE, endpointLocator(span.View()));
      spanCollector.Collect(w);
    }
  }
}
