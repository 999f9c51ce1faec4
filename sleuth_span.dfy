/**
 * The Sleuth span as the exporter sees it: immutable identity, name,
 * remote flag and key/value annotations, and a timeline of timestamped
 * markers that grows in place while the span is live.
 */
module Sleuth {
  import opened JavaLang

  /** A timeline marker: a millisecond timestamp and a label. */
  datatype TimelineAnnotation = TimelineAnnotation(time: Long, msg: JString)

  /**
   * The annotation map is given by its key/value pairs and by `keyOrder`,
   * the order in which iterating over its entries visits the keys.
   */
  ghost predicate EntryOrder(keyOrder: seq<JString>, annotations: map<JString, JString>)
  {
    && (forall i, j :: 0 <= i < j < |keyOrder| ==> keyOrder[i] != keyOrder[j])
    && (forall k :: k in annotations <==> k in keyOrder)
  }

  /** A snapshot of everything about a span that conversion and endpoint lookup may read. */
  datatype SpanView = SpanView(
    traceId: NullableString,
    spanId: NullableString,
    parents: seq<NullableString>,
    name: NullableString,
    remote: bool,
    annotations: map<JString, JString>,
    keyOrder: seq<JString>,
    timeline: seq<TimelineAnnotation>)
  {
    ghost predicate Valid()
    {
      EntryOrder(keyOrder, annotations)
    }
  }

  class Span {
    const traceId: NullableString
    const spanId: NullableString
    const parents: seq<NullableString>
    const name: NullableString
    const remote: bool
    const annotations: map<JString, JString>
    const keyOrder: seq<JString>
    var timeline: seq<TimelineAnnotation>

    ghost predicate Valid()
    {
      EntryOrder(keyOrder, annotations)
    }

    function View(): (v: SpanView)
      reads this
      ensures Valid() ==> v.Valid()
    {
      SpanView(traceId, spanId, parents, name, remote, annotations, keyOrder, timeline)
    }

    constructor (traceId: NullableString, spanId: NullableString, parents: seq<NullableString>,
                 name: NullableString, remote: bool,
                 annotations: map<JString, JString>, keyOrder: seq<JString>)
      requires EntryOrder(keyOrder, annotations)
      ensures Valid()
      ensures View() == SpanView(traceId, spanId, parents, name, remote, annotations, keyOrder, [])
    {
      this.traceId, this.spanId, this.parents := traceId, spanId, parents;
      this.name, this.remote := name, remote;
      this.annotations, this.keyOrder := annotations, keyOrder;
      this.timeline := [];
    }

    /** Appends the marker `msg`, stamped with the clock reading `now`. */
    method AddTimelineAnnotation(msg: JString, now: Long)
      modifies this
      ensures timeline == old(timeline) + [TimelineAnnotation(now, msg)]
    {
      timeline := timeline + [TimelineAnnotation(now, msg)];
    }
  }

  /**
   * Java's `Character.isWhitespace` on one UTF-16 code unit (Unicode 6.2, as
   * in Java 8): the space, line and paragraph separators other than the
   * no-break spaces U+00A0, U+2007 and U+202F, and the controls U+0009 to
   * U+000D and U+001C to U+001F.
   */
  predicate IsWhitespace(c: Char)
  {
    || 0x09 <= c <= 0x0D
    || 0x1C <= c <= 0x20
    || c == 0x1680 || c == 0x180E
    || 0x2000 <= c <= 0x2006
    || 0x2008 <= c <= 0x200A
    || c == 0x2028 || c == 0x2029 || c == 0x205F || c == 0x3000
  }

  /** Spring's `StringUtils.hasText`: non-null and holding a code unit that is not whitespace. */
  predicate HasText(s: NullableString)
    ensures HasText(s) ==> s.Some? && |s.value| > 0
    ensures s.Some? && (forall i :: 0 <= i < |s.value| ==> IsWhitespace(s.value[i])) ==> !HasText(s)
  {
    s.Some? && exists i :: 0 <= i < |s.value| && !IsWhitespace(s.value[i])
  }
}
