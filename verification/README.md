# Conditional GET for an http4k `Resource`

A Dafny model of the conditional-GET decision of http4k's experimental
`Resource` interface. A resource exposes an optional length, an optional
last-modified instant, a content type (default `application/octet-stream`)
and an optional entity tag. Given a request's `If-Modified-Since` and
`If-None-Match` validators, the resource answers either `304 Not Modified`
with headers only, or `200 OK` with headers and a body read from a stream it
opens for the purpose. Both answers carry the same four-entry header list.

Modules:

- `Wrappers`: `Option`, the reading of Kotlin's nullable types.
- `Decimal`: Kotlin's `Long` and `Long.toString()`, the text of `Content-Length`.
  A reader `ReadLong` is the independent reference for what that text means.
- `EntityTags`: `ETag`, the parsed `If-None-Match` value `FieldValue`
  (`Wildcard`, `ETags(list)`, and `Other` for the `else` branch of the match),
  and the list-membership test on tag values.
- `Http`: status, content type, header list, body, response, and a request
  reduced to its two validator headers.
- `Resources`: the resource record, its defaults, `isModifiedSince`, the
  header list, the two validator checks and the decision `Respond`;
  `Invoke` parses a request's validators and then decides.
- `ResourceProperties`: lemmas relating several calls.

Modelling choices:

- An `Instant` is an integer count of nanoseconds since the epoch, and
  `isAfter` is strict `>`.
- The date parser and formatter, the `If-None-Match` parser and the rendering
  of an entity tag as a header value are parameters, gathered in the
  `Codecs` record. The date parser is partial: it returns `None` on failure.
- Opening the stream is recorded as the `streamsOpened` count returned next
  to the response.
- The header list always has four entries, `Content-Type`, `Content-Length`,
  `Last-Modified` and `ETag` in that order, and a value is `None` when the
  field is unknown: the list built at `Resource.kt:36-41` keeps the pairs
  whose value is `null`.
- Parsing a present `If-None-Match` header always yields a `FieldValue`
  (`parsedForEtags` at `Resource.kt:80` has a non-null result), so only an
  absent header leaves the request without an entity-tag validator. The
  `Other` case stands for the `else` branch of the match at
  `Resource.kt:64` and never matches.

## Model

| member | source | states |
|---|---|---|
| Resources.WithDefaults | http4k-incubator/src/main/kotlin/org/http4k/routing/experimental/Resource.kt:25-31 | without overrides, length, last-modified and entity tag are null and the content type is `OCTET_STREAM` |
| Resources.IsModifiedSince | http4k-incubator/src/main/kotlin/org/http4k/routing/experimental/Resource.kt:33 | true when there is no last-modified instant; otherwise true iff last-modified is strictly after the given instant |
| Resources.ResponseHeaders | http4k-incubator/src/main/kotlin/org/http4k/routing/experimental/Resource.kt:35-41 | exactly four entries named Content-Type, Content-Length, Last-Modified, ETag in that order; the content type is always present; each other value is present iff its field is, and Content-Length is the declared length's `Long.toString()` text, which reads back as that length |
| Decimal.LongToString | http4k-incubator/src/main/kotlin/org/http4k/routing/experimental/Resource.kt:38 | the text of a `Long` reads back as the same number, is canonical (no leading zero, zero is "0", no "-0"), and starts with a digit iff the number is non-negative |
| Decimal.NatToDecimal | http4k-incubator/src/main/kotlin/org/http4k/routing/experimental/Resource.kt:38 | the digits of a magnitude: non-empty, all decimal digits, no leading zero, and starting with '0' iff the number is zero, which is spelt "0" |
| Decimal.NatToDecimalRoundTrip | http4k-incubator/src/main/kotlin/org/http4k/routing/experimental/Resource.kt:38 | reading the digits back gives the original number |
| Decimal.CanonicalDigitsUnique | http4k-incubator/src/main/kotlin/org/http4k/routing/experimental/Resource.kt:38 | a canonical digit string is exactly the spelling of its own value |
| Decimal.LongToStringUnique | http4k-incubator/src/main/kotlin/org/http4k/routing/experimental/Resource.kt:38 | any canonical text that reads back as a number is that number's `Long.toString()` text |
| Resources.ParseValidators | http4k-incubator/src/main/kotlin/org/http4k/routing/experimental/Resource.kt:49-54 | an absent header gives no validator; a present date header gives the parser's result, so an unparseable date gives none; a present `If-None-Match` header always gives a field value |
| Resources.NotModifiedSince | http4k-incubator/src/main/kotlin/org/http4k/routing/experimental/Resource.kt:48-51 | holds iff a date was parsed, the resource has a last-modified instant, and that instant is not after the date |
| Resources.EtagMatchValue | http4k-incubator/src/main/kotlin/org/http4k/routing/experimental/Resource.kt:58-66 | false without a resource entity tag (even for `*`); `*` matches any tagged resource; a list matches iff some listed tag's value equals the resource tag's value; any other field value never matches |
| Resources.EtagMatch | http4k-incubator/src/main/kotlin/org/http4k/routing/experimental/Resource.kt:53-56 | false when the header is absent or the resource has no entity tag; otherwise true iff the field value is `*` or a list containing the entity tag's value |
| EntityTags.TagValues | http4k-incubator/src/main/kotlin/org/http4k/routing/experimental/Resource.kt:82 | the list of tag values, same length and position by position |
| EntityTags.HasAnEtagWithValue | http4k-incubator/src/main/kotlin/org/http4k/routing/experimental/Resource.kt:82 | true iff some listed tag has exactly the given value, weak or not |
| EntityTags.HasAnEtagWithValueIgnoresOrderAndWeakness | http4k-incubator/src/main/kotlin/org/http4k/routing/experimental/Resource.kt:82 | two lists with the same multiset of values agree for every value |
| Resources.Invoke | http4k-incubator/src/main/kotlin/org/http4k/routing/experimental/Resource.kt:43-56 | from the raw request: 304 iff the `If-Modified-Since` text parses to a date not before last-modified, or an `If-None-Match` header is present and its parsed value matches the entity tag; the headers are the resource's header list; one stream is opened on 200 and none on 304 |
| Resources.Respond | http4k-incubator/src/main/kotlin/org/http4k/routing/experimental/Resource.kt:43-46 | status is 304 iff the date check or the entity-tag check holds; the headers are the resource's header list; 304 has no body and opens no stream; 200 opens exactly one stream and its body carries the declared length |
| ResourceProperties.NotModifiedIsUpwardClosed | http4k-incubator/src/main/kotlin/org/http4k/routing/experimental/Resource.kt:33 | an instant equal to or later than last-modified counts as not modified |
| ResourceProperties.InvalidDateActsAsAbsent | http4k-incubator/src/main/kotlin/org/http4k/routing/experimental/Resource.kt:73-78 | a request whose date does not parse gets exactly the response of the same request without that header |
| ResourceProperties.NoValidatorDataAlwaysDelivers | http4k-incubator/src/main/kotlin/org/http4k/routing/experimental/Resource.kt:43-66 | without entity tag and last-modified instant every request gets 200 and one opened stream |
| ResourceProperties.DefaultResourceAlwaysDelivers | http4k-incubator/src/main/kotlin/org/http4k/routing/experimental/Resource.kt:25-46 | the all-defaults resource always gets 200, announced as `application/octet-stream` |
| ResourceProperties.OutcomesShareHeaders | http4k-incubator/src/main/kotlin/org/http4k/routing/experimental/Resource.kt:43-46 | any two requests get identical header lists, and identical responses when their statuses agree |
| ResourceProperties.DateAtOrAfterLastModifiedIsNotModified | http4k-incubator/src/main/kotlin/org/http4k/routing/experimental/Resource.kt:43-51 | a date at or after last-modified gives 304 and opens no stream |
| ResourceProperties.DateBeforeLastModifiedDelivers | http4k-incubator/src/main/kotlin/org/http4k/routing/experimental/Resource.kt:43-51 | a date before last-modified, with no entity-tag validator, gives 200 |
| ResourceProperties.EtagOutcomes | http4k-incubator/src/main/kotlin/org/http4k/routing/experimental/Resource.kt:58-66 | for a tagged resource, `*` and a list naming its value give 304; a list of other values gives 200 |
| ResourceProperties.EtagMatchDependsOnlyOnValues | http4k-incubator/src/main/kotlin/org/http4k/routing/experimental/Resource.kt:58-66 | the entity-tag check depends only on the multiset of listed values, not on their order or weakness, nor on the resource tag's weakness |
| ResourceProperties.WorkedExample | http4k-incubator/src/main/kotlin/org/http4k/routing/experimental/Resource.kt:35-46 | a resource tagged "abc123" of 42 bytes answers 304 with its ETag header to "abc123" and 200 with the 42-byte stream to "xyz" |

## Left out

- RFC 1123 date parsing and formatting (`RFC_1123_DATE_TIME` in UTC, lines 69-78) belong to `java.time`; they are the `parseDate` and `formatDate` parameters, and no date round trip is stated.
- `ETagValidationRequestParser.parse` and `ETag.toHeaderString` are not part of this model; they are the `parseFieldValue` and `renderETag` parameters.
- `openStream`, the `InputStream`, `Body` and `MemoryResponse` plumbing, and stream closing are I/O; the model records only how many streams are opened and the length the body declares.
- Case-insensitive header lookup on `Request` is transport; a request is modelled as the two header values already extracted.
- Concurrent use of one `Resource` is not modelled; the resource is an immutable value.
- `Instant` precision and range are not modelled: an instant is an unbounded integer.
- Resources.Invoke: `isModifiedSince`, `headers` and `invoke` (`Resource.kt:33`, `35`, `43`) are open members of the interface, and an implementation may override them; the model fixes their default bodies, so the `ResourceProperties` results hold only for implementations that keep those defaults.
- Resources.ResponseHeaders: `formatDate` is a total parameter, but `RFC_1123_DATE_TIME` (`Resource.kt:69`) prints a four-digit year and throws for years outside 0000-9999; for such a `lastModified`, building the headers, and so `invoke` on both paths, throws, which the model does not express.
