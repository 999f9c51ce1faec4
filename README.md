# Zipkin exporter of Spring Cloud Sleuth, modelled in Dafny

This project models `ZipkinSpanListener`, the component of Spring Cloud
Sleuth that exports finished spans to Zipkin. It has three parts:

- **The id hash.** Sleuth span ids are strings and Zipkin ids are 64-bit
  `long`s. The listener maps one to the other with a rolling hash. It starts
  from the seed 1125899906842597. For each UTF-16 code unit `c` it sets
  `h = 31 * h + c`, with Java `long` wrap-around. A null string hashes to the
  seed.
- **Conversion.** A Sleuth span becomes a Zipkin wire span. The trace id,
  span id and first parent id are hashed; further parents are dropped. The
  name is copied only when it has text. Each timeline marker becomes a wire
  annotation, with its millisecond time multiplied by 1000 to give
  microseconds (wrapping). Each key/value annotation becomes a STRING binary
  annotation with UTF-8 bytes, or no value if encoding fails. All of them
  share the one endpoint the locator returns.
- **Lifecycle handlers.** The acquire, client-send and client-receive events
  each add one timeline marker. Server-receive adds one marker, but only to a
  parent that is present and remote. Release adds `"release"` and then hands
  the converted span to the collector. Server-send does the same with `"ss"`,
  but only for a present, remote parent.

Files:

- `java_lang.dfy` (module `JavaLang`) defines Java `long`/`int`/`short`/`char`,
  strings that may be null, and `Wrap`, which gives exact 64-bit
  two's-complement wrap-around.
- `rolling_hash.dfy` (module `Hashing`) holds the hash loop and its
  specification over string prefixes. It also has two independent reference
  definitions: a front-to-back fold and the closed-form polynomial.
- `zipkin_thrift.dfy` (module `ZipkinThrift`) holds the wire structures and
  Zipkin's `cs`/`cr`/`ss`/`sr` constants.
- `sleuth_span.dfy` (module `Sleuth`) holds the span as a class. Its
  identity, name, remote flag and annotation map are immutable; its timeline
  is a mutable `seq`. It also defines `StringUtils.hasText` over
  `Character.isWhitespace`.
- `zipkin_span_listener.dfy` (module `ZipkinExport`) holds the conversion's
  specification functions, the lemmas about them, the collector as an
  append-only log, and the listener class with its methods.

The methods are proved against specification functions. `Hash` equals
`HashOf`. `CreateZipkinAnnotations` equals `WireAnnotations`.
`CreateZipkinBinaryAnnotations` equals `WireBinaryAnnotations`. `Convert`
equals `ConvertSpec`. Each handler's `ensures` gives the span's new timeline
and the collector's new log in terms of the old ones. Lemmas then state what
those functions mean.

Collaborators whose code is not in the model become parameters or
function-valued constants:

- the endpoint locator is a total function of a span snapshot;
- `String.getBytes("UTF-8")` is a function that may give `None` (the
  `UnsupportedEncodingException` path);
- the clock that stamps timeline markers is a `now` parameter of each
  handler.

Two behaviours of the code are easy to miss:

- When UTF-8 encoding fails, the code still appends the binary annotation
  with its value unset. It does not drop it.
- The wire name is omitted unless the name has text, meaning not null and
  not only whitespace (Spring's `hasText`).

## Model

| member | source | states |
|---|---|---|
| `JavaLang.Wrap` | spring-cloud-sleuth-zipkin/src/main/java/org/springframework/cloud/sleuth/zipkin/ZipkinSpanListener.java:203 | the Java `long` result of an integer expression is the unique `long` congruent to it mod 2^64, and equals it when it is in range |
| `JavaLang.MulAddWrapsOnce` | spring-cloud-sleuth-zipkin/src/main/java/org/springframework/cloud/sleuth/zipkin/ZipkinSpanListener.java:203 | `31 * h + c` evaluated with a wrap after the multiplication and after the addition equals one wrap of the exact value |
| `Hashing.Hash` | spring-cloud-sleuth-zipkin/src/main/java/org/springframework/cloud/sleuth/zipkin/ZipkinSpanListener.java:195-206 | the loop returns the prefix-specified hash of its input; null and the empty string both give the seed 1125899906842597 |
| `Hashing.HashRecurrence` | spring-cloud-sleuth-zipkin/src/main/java/org/springframework/cloud/sleuth/zipkin/ZipkinSpanListener.java:200-205 | appending one code unit c sets the hash to 31 * old hash + c modulo 2^64 |
| `Hashing.HashAppend` | spring-cloud-sleuth-zipkin/src/main/java/org/springframework/cloud/sleuth/zipkin/ZipkinSpanListener.java:202-204 | the hash of s + t is the hash of s with the code units of t folded in from the front |
| `Hashing.RollingHashIsFold` | spring-cloud-sleuth-zipkin/src/main/java/org/springframework/cloud/sleuth/zipkin/ZipkinSpanListener.java:196-205 | the hash equals the front-to-back fold of the step over the characters from the seed |
| `Hashing.HashClosedForm` | spring-cloud-sleuth-zipkin/src/main/java/org/springframework/cloud/sleuth/zipkin/ZipkinSpanListener.java:196-205 | the hash is the low 64 bits of SEED * 31^n + sum of s[i] * 31^(n-1-i) |
| `ZipkinExport.CreateZipkinAnnotation` | spring-cloud-sleuth-zipkin/src/main/java/org/springframework/cloud/sleuth/zipkin/ZipkinSpanListener.java:179-193 | the annotation carries the value and the endpoint; its timestamp is time * 1000 modulo 2^64, and exactly time * 1000 when that fits; the result does not depend on `sendRequest` |
| `ZipkinExport.WireAnnotationsAt` | spring-cloud-sleuth-zipkin/src/main/java/org/springframework/cloud/sleuth/zipkin/ZipkinSpanListener.java:137-145 | one wire annotation per timeline marker, same length and order; element i has the marker's label, its time times 1000 (wrapping), and the endpoint |
| `ZipkinExport.WireBinaryAnnotationsAt` | spring-cloud-sleuth-zipkin/src/main/java/org/springframework/cloud/sleuth/zipkin/ZipkinSpanListener.java:152-169 | one binary annotation per visited entry, in entry order; element i has the entry's key, the encoder's result for its value (unset on failure), type STRING and the endpoint |
| `ZipkinExport.WireBinaryAnnotationsCoverMap` | spring-cloud-sleuth-zipkin/src/main/java/org/springframework/cloud/sleuth/zipkin/ZipkinSpanListener.java:155-167 | as many binary annotations as the map has entries, every key of the map appears in exactly one of them, and each carries its own key's encoded value |
| `ZipkinExport.ConvertSpecMeaning` | spring-cloud-sleuth-zipkin/src/main/java/org/springframework/cloud/sleuth/zipkin/ZipkinSpanListener.java:109-131 | trace id and id are hashes of the span's ids; the parent id is set iff there is a parent and is then the hash of the first; the name is set iff it has text and is then the span's name; annotations and binary annotations correspond to the timeline and the map, all on the one endpoint |
| `ZipkinExport.LastMarkerExported` | spring-cloud-sleuth-zipkin/src/main/java/org/springframework/cloud/sleuth/zipkin/ZipkinSpanListener.java:137-145 | appending a marker to the timeline appends its wire annotation to the converted list and leaves the earlier ones as they were |
| `ZipkinExport.SpanCollector.Collect` | spring-cloud-sleuth-zipkin/src/main/java/org/springframework/cloud/sleuth/zipkin/ZipkinSpanListener.java:98 | the collector's log grows by exactly the span handed to it |
| `ZipkinExport.ZipkinSpanListener.constructor` | spring-cloud-sleuth-zipkin/src/main/java/org/springframework/cloud/sleuth/zipkin/ZipkinSpanListener.java:54-57 | the listener keeps the collector and the endpoint locator it is given |
| `ZipkinExport.ZipkinSpanListener.Convert` | spring-cloud-sleuth-zipkin/src/main/java/org/springframework/cloud/sleuth/zipkin/ZipkinSpanListener.java:109-131 | the setters applied to a fresh wire span produce exactly the conversion of the span's current state, with the endpoint from a single locator call |
| `ZipkinExport.ZipkinSpanListener.CreateZipkinAnnotations` | spring-cloud-sleuth-zipkin/src/main/java/org/springframework/cloud/sleuth/zipkin/ZipkinSpanListener.java:137-145 | the loop builds exactly the wire annotations of the span's timeline |
| `ZipkinExport.ZipkinSpanListener.CreateZipkinBinaryAnnotations` | spring-cloud-sleuth-zipkin/src/main/java/org/springframework/cloud/sleuth/zipkin/ZipkinSpanListener.java:152-169 | the loop builds exactly the binary annotations of the span's map in entry order, keeping an entry whose encoding failed with its value unset |
| `ZipkinExport.ZipkinSpanListener.Start` | spring-cloud-sleuth-zipkin/src/main/java/org/springframework/cloud/sleuth/zipkin/ZipkinSpanListener.java:59-63 | appends one "acquire" marker; the collector is unchanged |
| `ZipkinExport.ZipkinSpanListener.ServerReceived` | spring-cloud-sleuth-zipkin/src/main/java/org/springframework/cloud/sleuth/zipkin/ZipkinSpanListener.java:65-71 | a present, remote parent gets one "sr" marker; a local parent or a missing one is unchanged; the collector is unchanged |
| `ZipkinExport.ZipkinSpanListener.ClientSend` | spring-cloud-sleuth-zipkin/src/main/java/org/springframework/cloud/sleuth/zipkin/ZipkinSpanListener.java:73-77 | appends one "cs" marker; the collector is unchanged |
| `ZipkinExport.ZipkinSpanListener.ClientReceive` | spring-cloud-sleuth-zipkin/src/main/java/org/springframework/cloud/sleuth/zipkin/ZipkinSpanListener.java:79-83 | appends one "cr" marker; the collector is unchanged |
| `ZipkinExport.ZipkinSpanListener.ServerSend` | spring-cloud-sleuth-zipkin/src/main/java/org/springframework/cloud/sleuth/zipkin/ZipkinSpanListener.java:85-92 | a present, remote parent gets one "ss" marker and exactly one converted span is collected, ending with that marker; otherwise neither the parent nor the collector changes |
| `ZipkinExport.ZipkinSpanListener.Release` | spring-cloud-sleuth-zipkin/src/main/java/org/springframework/cloud/sleuth/zipkin/ZipkinSpanListener.java:94-99 | appends one "release" marker, then collects exactly one wire span: the conversion of the span after marking, whose last annotation is the release marker in microseconds |
| `Sleuth.HasText` | spring-cloud-sleuth-zipkin/src/main/java/org/springframework/cloud/sleuth/zipkin/ZipkinSpanListener.java:125 | Spring's `hasText`: a string has text only if it is non-null and non-empty, and a null, empty or all-whitespace string has none |
| `Sleuth.Span.AddTimelineAnnotation` | spring-cloud-sleuth-zipkin/src/main/java/org/springframework/cloud/sleuth/zipkin/ZipkinSpanListener.java:62 | the span's timeline grows by exactly one marker with the given label and clock reading |

## Left out

- Logging (`log.error` for more than one parent and for an encoding failure) is not modelled. Both paths are, though: only the first parent is kept, and the annotation's value is left unset.
- Spring event dispatch (`@EventListener`, `@Order`) and the event objects are not modelled. Each handler receives the span, or the parent, that its event carries.
- The Sleuth `Span` class is not part of this model. It appears only through the accessors the listener calls. Its `addTimelineAnnotation` reads the system clock, which the model passes in as `now`.
- The map's entry-set iteration order is given explicitly as the span's `keyOrder`: a repetition-free listing of the map's keys. The Java map decides that order itself.
- The span's annotation map is fixed when the span is built. In Sleuth the current span's map grows during its life, since application code calls `addAnnotation` on it. No listener contract depends on this, because the listener reads the map only when it converts the span.
- `EndpointLocator` implementations, including `DiscoveryClientEndpointLocator` (discovery lookup, DNS, the fallback to ip 0, the `short` port truncation), are not modelled. The locator is an arbitrary total function of the span's state.
- The real UTF-8 encoding of UTF-16 strings is left abstract, as an arbitrary function that may fail.
- The Brave `SpanCollector` transport (batching, asynchrony, retries) is reduced to an append-only log.
- A null annotation value and a null parent list are not modelled; the Java code throws `NullPointerException` on both. Null annotation keys and null timeline labels are not modelled either.
- A freshly allocated Thrift span has null lists; the model starts with empty ones. Both are always set before `Convert` returns. The Thrift "is set" bits for `trace_id` and `id` are not modelled, since both are always set.
- `Sleuth.IsWhitespace` follows `Character.isWhitespace` as of Unicode 6.2 (Java 8). Later Java versions no longer treat U+180E as whitespace.
- The span-context stack, span lifecycle service, samplers and propagation interceptor are not part of this model, and neither is `TraceChannelInterceptorTests.java`: their sources are not among the files modelled. `SampleController.java` is sample HTTP code with no logic of its own.
