/** Properties of the conditional-GET decision that relate several calls. */
module ResourceProperties {
  import opened Wrappers
  import opened Decimal
  import opened EntityTags
  import opened Http
  import opened Resources

  /** Once a resource is unmodified since `i`, it is unmodified since every
      later instant too; an instant equal to the modification time already
      counts as unmodified. */
  lemma NotModifiedIsUpwardClosed(r: Resource, i: Instant, j: Instant)
    requires r.lastModified.Some?
    requires r.lastModified.value <= i <= j
    ensures !IsModifiedSince(r, i) && !IsModifiedSince(r, j)
  {
  }

  /** A date that does not parse changes nothing: the response is exactly the
      one for the same request without `If-Modified-Since`. */
  lemma InvalidDateActsAsAbsent(r: Resource, codecs: Codecs, request: Request)
    requires request.ifModifiedSince.Some?
    requires codecs.parseDate(request.ifModifiedSince.value) == None
    ensures Invoke(r, codecs, request) == Invoke(r, codecs, request.(ifModifiedSince := None))
  {
  }

  /** A resource with neither an entity tag nor a modification time is always
      delivered in full, whatever validators the request carries. */
  lemma NoValidatorDataAlwaysDelivers(r: Resource, codecs: Codecs, request: Request)
    requires r.etag == None && r.lastModified == None
    ensures Invoke(r, codecs, request).response.status == Ok
    ensures Invoke(r, codecs, request).streamsOpened == 1
  {
  }

  /** The resource with all defaults is such a resource, and announces itself
      as an octet stream. */
  lemma DefaultResourceAlwaysDelivers(codecs: Codecs, request: Request)
    ensures Invoke(WithDefaults(), codecs, request).response.status == Ok
    ensures Invoke(WithDefaults(), codecs, request).response.headers[0]
         == ("Content-Type", Some("application/octet-stream"))
  {
  }

  /** The two outcomes for the same resource carry identical header lists and
      differ in nothing but status, body and the stream opened. */
  lemma OutcomesShareHeaders(r: Resource, codecs: Codecs, v1: Validators, v2: Validators)
    ensures Respond(r, codecs, v1).response.headers == Respond(r, codecs, v2).response.headers
    ensures Respond(r, codecs, v1).response.status == Respond(r, codecs, v2).response.status
        ==> Respond(r, codecs, v1) == Respond(r, codecs, v2)
  {
  }

  /** A date at or after the modification time yields `304`, whatever the
      entity-tag check says. */
  lemma DateAtOrAfterLastModifiedIsNotModified(r: Resource, codecs: Codecs, v: Validators)
    requires r.lastModified.Some? && v.ifModifiedSince.Some?
    requires v.ifModifiedSince.value >= r.lastModified.value
    ensures Respond(r, codecs, v).response.status == NotModified
    ensures Respond(r, codecs, v).streamsOpened == 0
  {
  }

  /** A date strictly before the modification time, with no entity-tag
      validator, yields `200`. */
  lemma DateBeforeLastModifiedDelivers(r: Resource, codecs: Codecs, v: Validators)
    requires r.lastModified.Some? && v.ifModifiedSince.Some?
    requires v.ifModifiedSince.value < r.lastModified.value
    requires v.ifNoneMatch == None
    ensures Respond(r, codecs, v).response.status == Ok
  {
  }

  /** With an entity tag `e`: `*` and a list naming `e`'s value (weak or not)
      give `304`; a list of other values, without a date validator, gives
      `200`. */
  lemma EtagOutcomes(r: Resource, codecs: Codecs, weak: bool, others: seq<ETag>)
    requires r.etag.Some?
    requires forall i :: 0 <= i < |others| ==> others[i].value != r.etag.value.value
    ensures Respond(r, codecs, Validators(None, Some(Wildcard))).response.status == NotModified
    ensures Respond(r, codecs, Validators(None, Some(ETags([ETag(r.etag.value.value, weak)]))))
              .response.status == NotModified
    ensures Respond(r, codecs, Validators(None, Some(ETags(others)))).response.status == Ok
  {
  }

  /** The entity-tag decision depends only on the values listed, not on their
      order or weakness, and not on the weakness of the resource's own tag. */
  lemma EtagMatchDependsOnlyOnValues(r: Resource, a: seq<ETag>, b: seq<ETag>, weak: bool)
    requires r.etag.Some?
    requires multiset(TagValues(a)) == multiset(TagValues(b))
    ensures EtagMatchValue(r, ETags(a)) == EtagMatchValue(r, ETags(b))
    ensures EtagMatchValue(r, ETags(a))
         == EtagMatchValue(r.(etag := Some(ETag(r.etag.value.value, weak))), ETags(a))
  {
    HasAnEtagWithValueIgnoresOrderAndWeakness(a, b, r.etag.value.value);
  }

  /** The worked example: tag "abc123", 42 bytes, modified at the start of
      2023. A request naming "abc123" gets `304` with the tag header and no
      body; one naming "xyz" gets `200` with the opened stream of 42 bytes. */
  lemma WorkedExample(codecs: Codecs)
    ensures
      var r := Resource(Some(42), Some(1672531200 * 1_000_000_000), OctetStream,
                        Some(ETag("abc123", false)));
      var hit := Respond(r, codecs, Validators(None, Some(ETags([ETag("abc123", false)]))));
      var miss := Respond(r, codecs, Validators(None, Some(ETags([ETag("xyz", false)]))));
      && hit.response.status == NotModified
      && hit.response.body == NoBody
      && hit.response.headers[3] == ("ETag", Some(codecs.renderETag(ETag("abc123", false))))
      && miss.response.status == Ok
      && miss.response.body == StreamBody(Some(42))
      && miss.streamsOpened == 1
      && ReadLong(miss.response.headers[1].1.value) == Some(42)
  {
  }
}
