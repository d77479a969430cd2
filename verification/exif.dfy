/**
 `get_metadata` of the viewer: the EXIF block of an image, with numeric tag
 ids renamed through PIL's tag table. Opening and EXIF decoding are
 abstracted: reading either raises with a message or yields the EXIF block,
 absent or as the sequence of its (tag id, value) items in iteration order.
 Tag values are opaque, of type `V`.
 */
module Exif {
  import opened Outcomes

  /** A metadata key: a tag name from the table, or the numeric id itself. */
  datatype TagKey = TagName(name: string) | TagId(id: int)

  /** A metadata value: a tag's value, or the text stored under `"Error"`. */
  datatype ExifField<V> = TagValue(value: V) | ErrorText(text: string)

  datatype ExifRead<V> = ReadFailed(reason: string) | Read(exif: Option<seq<(int, V)>>)

  /** `TAGS.get(tag, tag)` */
  function TagKeyOf(tags: map<int, string>, id: int): (r: TagKey)
    ensures r.TagName? <==> id in tags
    ensures r.TagName? ==> r.name == tags[id]
    ensures r.TagId? ==> r.id == id
  {
    if id in tags then TagName(tags[id]) else TagId(id)
  }

  /** The keys `RenameTags` stores: the renamed ids of the items. */
  ghost predicate KeysOf<V>(tags: map<int, string>, items: seq<(int, V)>, m: map<TagKey, ExifField<V>>) {
    forall k :: k in m <==> exists i :: 0 <= i < |items| && TagKeyOf(tags, items[i].0) == k
  }

  /** Each stored value comes from the last item with that key. */
  ghost predicate LastWins<V>(tags: map<int, string>, items: seq<(int, V)>, m: map<TagKey, ExifField<V>>) {
    forall k :: k in m ==>
      exists i :: (0 <= i < |items| && TagKeyOf(tags, items[i].0) == k &&
                   m[k] == TagValue(items[i].1) &&
                   forall j :: i < j < |items| ==> TagKeyOf(tags, items[j].0) != k)
  }

  /**
   The loop of proto-type.py:17-19: every item is stored under its renamed
   key, a later item overwriting an earlier one with the same key.
   */
  function RenameTags<V>(tags: map<int, string>, items: seq<(int, V)>): (m: map<TagKey, ExifField<V>>)
    ensures forall k :: k in m <==> exists i :: 0 <= i < |items| && TagKeyOf(tags, items[i].0) == k
    ensures forall k :: k in m ==>
              exists i :: (0 <= i < |items| && TagKeyOf(tags, items[i].0) == k &&
                           m[k] == TagValue(items[i].1) &&
                           forall j :: i < j < |items| ==> TagKeyOf(tags, items[j].0) != k)
  {
    if |items| == 0 then map[]
    else
      var init, last := items[..|items| - 1], items[|items| - 1];
      var m0 := RenameTags(tags, init);
      var m := m0[TagKeyOf(tags, last.0) := TagValue(last.1)];
      assert KeysOf(tags, init, m0) && LastWins(tags, init, m0);
      KeysStep(tags, items, m0);
      LastWinsStep(tags, items, m0);
      m
  }

  lemma KeysStep<V>(tags: map<int, string>, items: seq<(int, V)>, m0: map<TagKey, ExifField<V>>)
    requires |items| > 0 && KeysOf(tags, items[..|items| - 1], m0)
    ensures KeysOf(tags, items, m0[TagKeyOf(tags, items[|items| - 1].0) := TagValue(items[|items| - 1].1)])
  {
    var init := items[..|items| - 1];
    var key := TagKeyOf(tags, items[|items| - 1].0);
    var m := m0[key := TagValue(items[|items| - 1].1)];
    forall k ensures k in m <==> exists i :: 0 <= i < |items| && TagKeyOf(tags, items[i].0) == k {
      if k != key && exists i :: 0 <= i < |items| && TagKeyOf(tags, items[i].0) == k {
        var i :| 0 <= i < |items| && TagKeyOf(tags, items[i].0) == k;
        assert i < |init| && TagKeyOf(tags, init[i].0) == k;
      }
      if k != key && exists i :: 0 <= i < |init| && TagKeyOf(tags, init[i].0) == k {
        var i :| 0 <= i < |init| && TagKeyOf(tags, init[i].0) == k;
        assert items[i] == init[i];
      }
    }
  }

  lemma LastWinsStep<V>(tags: map<int, string>, items: seq<(int, V)>, m0: map<TagKey, ExifField<V>>)
    requires |items| > 0 && LastWins(tags, items[..|items| - 1], m0)
    ensures LastWins(tags, items, m0[TagKeyOf(tags, items[|items| - 1].0) := TagValue(items[|items| - 1].1)])
  {
    var init := items[..|items| - 1];
    var key := TagKeyOf(tags, items[|items| - 1].0);
    var m := m0[key := TagValue(items[|items| - 1].1)];
    forall k | k in m
      ensures exists i :: (0 <= i < |items| && TagKeyOf(tags, items[i].0) == k &&
                           m[k] == TagValue(items[i].1) &&
                           forall j :: i < j < |items| ==> TagKeyOf(tags, items[j].0) != k)
    {
      if k == key {
        assert TagKeyOf(tags, items[|items| - 1].0) == k;
      } else {
        var i :| 0 <= i < |init| && TagKeyOf(tags, init[i].0) == k &&
                 m0[k] == TagValue(init[i].1) &&
                 forall j :: i < j < |init| ==> TagKeyOf(tags, init[j].0) != k;
        assert items[i] == init[i];
        forall j | i < j < |items| ensures TagKeyOf(tags, items[j].0) != k {
          if j < |init| {
            assert items[j] == init[j];
          }
        }
      }
    }
  }

  /** get_metadata (proto-type.py:11-22). */
  function GetMetadata<V>(tags: map<int, string>, read: ExifRead<V>): (m: map<TagKey, ExifField<V>>)
    // any exception gives the single "Error" entry holding its text
    ensures read.ReadFailed? ==> m == map[TagName("Error") := ErrorText(read.reason)]
    // no EXIF block, or an empty one, gives an empty map
    ensures read.Read? && (read.exif.None? || read.exif.value == []) ==> m == map[]
    // otherwise the keys are the renamed tag ids
    ensures read.Read? && read.exif.Some? ==>
              forall k :: k in m <==>
                exists i :: 0 <= i < |read.exif.value| && TagKeyOf(tags, read.exif.value[i].0) == k
    // and each key holds the value of the last item renamed to it
    ensures read.Read? && read.exif.Some? ==> LastWins(tags, read.exif.value, m)
  {
    match read
    case ReadFailed(e) => map[TagName("Error") := ErrorText(e)]
    case Read(None) => map[]
    case Read(Some(items)) => if items == [] then map[] else RenameTags(tags, items)
  }

  /** A known id is renamed, an unknown one is kept as the number. */
  lemma RenamesKnownKeepsUnknown<V>(tags: map<int, string>, known: int, unknown: int, a: V, b: V)
    requires known in tags && unknown !in tags
    ensures GetMetadata(tags, Read(Some([(known, a), (unknown, b)]))) ==
            map[TagName(tags[known]) := TagValue(a), TagId(unknown) := TagValue(b)]
  {
    var items := [(known, a), (unknown, b)];
    assert items[..1] == [(known, a)] && items[..1][..0] == [];
    assert RenameTags(tags, items[..1]) == map[TagName(tags[known]) := TagValue(a)];
    assert TagKeyOf(tags, unknown) == TagId(unknown);
  }

  /** Two ids with the same name keep only the value of the later one. */
  lemma LaterTagWins<V>(tags: map<int, string>, first: int, second: int, a: V, b: V)
    requires first in tags && second in tags && tags[first] == tags[second]
    ensures GetMetadata(tags, Read(Some([(first, a), (second, b)]))) == map[TagName(tags[first]) := TagValue(b)]
  {
    var items := [(first, a), (second, b)];
    assert items[..1] == [(first, a)] && items[..1][..0] == [];
    var m0 := RenameTags(tags, items[..1]);
    assert m0 == map[TagName(tags[first]) := TagValue(a)];
    assert TagKeyOf(tags, second) == TagName(tags[first]);
    assert m0[TagName(tags[first]) := TagValue(b)] == map[TagName(tags[first]) := TagValue(b)];
  }
}
