/** A conditionally servable resource: the validation decision between a
    `304 Not Modified` and a `200 OK` response, and the headers both carry. */
module Resources {
  import opened Wrappers
  import opened Decimal
  import opened EntityTags
  import opened Http

  /** A point in time, as nanoseconds since the epoch. */
  type Instant = int

  /** `Instant.isAfter`: strictly later. */
  predicate IsAfter(a: Instant, b: Instant) {
    a > b
  }

  /** The parts of the system the resource relies on but does not define:
      the RFC 1123 date parser (partial, `None` on any failure) and formatter,
      the `If-None-Match` parser, and the rendering of an entity tag as a
      header value. */
  datatype Codecs = Codecs(
    parseDate: string -> Option<Instant>,
    formatDate: Instant -> string,
    parseFieldValue: string -> FieldValue,
    renderETag: ETag -> string)

  /** What a resource exposes. Every field is an immutable snapshot; `None`
      means the resource does not know the value. */
  datatype Resource = Resource(
    length: Option<Long>,
    lastModified: Option<Instant>,
    contentType: ContentType,
    etag: Option<ETag>)

  /** The request validators after parsing. */
  datatype Validators = Validators(ifModifiedSince: Option<Instant>, ifNoneMatch: Option<FieldValue>)

  /** A response together with the number of times the resource's stream was
      opened to produce it. */
  datatype Served = Served(response: Response, streamsOpened: nat)

  /** A resource that overrides none of the optional properties. */
  function WithDefaults(): (r: Resource)
    ensures r.length == None && r.lastModified == None && r.etag == None
    ensures r.contentType == OctetStream
  {
    Resource(None, None, OctetStream, None)
  }

  /** Whether the resource changed after `instant`; a resource without a
      modification time always counts as modified. */
  function IsModifiedSince(r: Resource, instant: Instant): (b: bool)
    ensures r.lastModified == None ==> b
    ensures r.lastModified != None ==> (b <==> r.lastModified.value > instant)
  {
    match r.lastModified
    case Some(t) => IsAfter(t, instant)
    case None => true
  }

  /** The response headers: always the same four names in the same order,
      each value absent exactly when the resource lacks the field. */
  function ResponseHeaders(r: Resource, codecs: Codecs): (h: Headers)
    ensures |h| == 4
    ensures h[0].0 == "Content-Type" && h[1].0 == "Content-Length"
    ensures h[2].0 == "Last-Modified" && h[3].0 == "ETag"
    ensures h[0].1 == Some(r.contentType.value)
    ensures h[1].1.Some? <==> r.length.Some?
    ensures r.length.Some? ==> h[1].1.value == LongToString(r.length.value)
    ensures r.length.Some? ==> ReadLong(h[1].1.value) == Some(r.length.value as int)
    ensures h[2].1.Some? <==> r.lastModified.Some?
    ensures r.lastModified.Some? ==> h[2].1.value == codecs.formatDate(r.lastModified.value)
    ensures h[3].1.Some? <==> r.etag.Some?
    ensures r.etag.Some? ==> h[3].1.value == codecs.renderETag(r.etag.value)
  {
    [ ("Content-Type", Some(r.contentType.value)),
      ("Content-Length", match r.length case Some(n) => Some(LongToString(n)) case None => None),
      ("Last-Modified", match r.lastModified case Some(t) => Some(codecs.formatDate(t)) case None => None),
      ("ETag", match r.etag case Some(e) => Some(codecs.renderETag(e)) case None => None) ]
  }

  /** Parses the raw validator headers; an absent header stays absent, and a
      date that does not parse is dropped as if it were absent. */
  function ParseValidators(codecs: Codecs, request: Request): (v: Validators)
    ensures request.ifModifiedSince == None ==> v.ifModifiedSince == None
    ensures request.ifModifiedSince != None ==>
      v.ifModifiedSince == codecs.parseDate(request.ifModifiedSince.value)
    ensures request.ifNoneMatch == None <==> v.ifNoneMatch == None
    ensures request.ifNoneMatch != None ==>
      v.ifNoneMatch.value == codecs.parseFieldValue(request.ifNoneMatch.value)
  {
    Validators(
      match request.ifModifiedSince case Some(text) => codecs.parseDate(text) case None => None,
      match request.ifNoneMatch case Some(text) => Some(codecs.parseFieldValue(text)) case None => None)
  }

  /** The date check holds only when a valid date was supplied and the
      resource has a modification time no later than it. */
  function NotModifiedSince(r: Resource, ifModifiedSince: Option<Instant>): (b: bool)
    ensures b <==> ifModifiedSince.Some? && r.lastModified.Some?
                   && r.lastModified.value <= ifModifiedSince.value
  {
    ifModifiedSince.Some? && !IsModifiedSince(r, ifModifiedSince.value)
  }

  /** The entity-tag check against one parsed field value. */
  function EtagMatchValue(r: Resource, fieldValue: FieldValue): (b: bool)
    ensures r.etag == None ==> !b
    ensures r.etag != None && fieldValue == Wildcard ==> b
    ensures fieldValue == Other ==> !b
    ensures r.etag != None && fieldValue.ETags? ==>
      (b <==> exists i :: 0 <= i < |fieldValue.tags|
                          && fieldValue.tags[i].value == r.etag.value.value)
  {
    match r.etag
    case None => false
    case Some(local) =>
      match fieldValue
      case Wildcard => true
      case ETags(tags) => HasAnEtagWithValue(tags, local.value)
      case Other => false
  }

  /** The entity-tag check for a request: no header, no match. */
  function EtagMatch(r: Resource, ifNoneMatch: Option<FieldValue>): (b: bool)
    // The absent-header and untagged-resource cases, spelt out; the next
    // clause implies this one.
    ensures ifNoneMatch == None || r.etag == None ==> !b
    ensures b <==>
      (&& ifNoneMatch.Some?
       && r.etag.Some?
       && (|| ifNoneMatch.value == Wildcard
           || (&& ifNoneMatch.value.ETags?
               && exists i :: 0 <= i < |ifNoneMatch.value.tags|
                              && ifNoneMatch.value.tags[i].value == r.etag.value.value)))
  {
    ifNoneMatch.Some? && EtagMatchValue(r, ifNoneMatch.value)
  }

  /** The decision on already parsed validators: `304` with no body and no
      stream opened when either check holds, `200` with the one opened stream
      otherwise; the headers are the same either way. */
  function Respond(r: Resource, codecs: Codecs, v: Validators): (s: Served)
    ensures s.response.status == NotModified <==>
      NotModifiedSince(r, v.ifModifiedSince) || EtagMatch(r, v.ifNoneMatch)
    ensures s.response.headers == ResponseHeaders(r, codecs)
    ensures s.response.status == NotModified ==>
      s.response.body == NoBody && s.streamsOpened == 0
    ensures s.response.status == Ok ==>
      s.response.body == StreamBody(r.length) && s.streamsOpened == 1
  {
    if NotModifiedSince(r, v.ifModifiedSince) || EtagMatch(r, v.ifNoneMatch) then
      Served(Response(NotModified, ResponseHeaders(r, codecs), NoBody), 0)
    else
      Served(Response(Ok, ResponseHeaders(r, codecs), StreamBody(r.length)), 1)
  }

  /** Handling a request: parse its validators, then decide. */
  function Invoke(r: Resource, codecs: Codecs, request: Request): (s: Served)
    ensures s.response.status == NotModified <==>
      (&& request.ifModifiedSince.Some?
       && codecs.parseDate(request.ifModifiedSince.value).Some?
       && r.lastModified.Some?
       && r.lastModified.value <= codecs.parseDate(request.ifModifiedSince.value).value)
      || (request.ifNoneMatch.Some?
          && EtagMatchValue(r, codecs.parseFieldValue(request.ifNoneMatch.value)))
    ensures s.response.headers == ResponseHeaders(r, codecs)
    ensures s.streamsOpened == (if s.response.status == Ok then 1 else 0)
    ensures s.response.body == (if s.response.status == Ok then StreamBody(r.length) else NoBody)
  {
    Respond(r, codecs, ParseValidators(codecs, request))
  }
}
