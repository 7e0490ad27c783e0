/** Entity tags and the parsed value of an `If-None-Match` request header. */
module EntityTags {

  /** An entity tag: its opaque value and whether it is a weak validator. */
  datatype ETag = ETag(value: string, weak: bool)

  /** The parsed `If-None-Match` field value. `Wildcard` is the header `*`,
      `ETags` a list of tags. `Other` stands for any further value the parser
      might produce; the decision treats it like no match. */
  datatype FieldValue = Wildcard | ETags(tags: seq<ETag>) | Other

  /** The tags' values, in list order (`map(ETag::value)`). */
  function TagValues(tags: seq<ETag>): (values: seq<string>)
    ensures |values| == |tags|
    ensures forall i :: 0 <= i < |tags| ==> values[i] == tags[i].value
  {
    if tags == [] then []
    else [tags[0].value] + TagValues(tags[1..])
  }

  /** Whether some listed tag carries exactly `value`; weakness is ignored. */
  function HasAnEtagWithValue(tags: seq<ETag>, value: string): (b: bool)
    ensures b <==> exists i :: 0 <= i < |tags| && tags[i].value == value
  {
    value in TagValues(tags)
  }

  /** Only the multiset of listed values matters: reordering the list, or
      changing which tags are weak, does not change the answer. */
  lemma HasAnEtagWithValueIgnoresOrderAndWeakness(a: seq<ETag>, b: seq<ETag>, value: string)
    requires multiset(TagValues(a)) == multiset(TagValues(b))
    ensures HasAnEtagWithValue(a, value) == HasAnEtagWithValue(b, value)
  {
    assert value in TagValues(a) <==> value in multiset(TagValues(a));
    assert value in TagValues(b) <==> value in multiset(TagValues(b));
  }
}
