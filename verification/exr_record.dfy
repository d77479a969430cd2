/**
 The per-file record builder `get_all_exr_metadata`. The OpenEXR decoder is
 abstracted: opening a file either fails with a message or yields the header
 as the sequence of its (name, attribute) pairs in the header's iteration
 order. Each attribute is readable, with a tagged value, or its lookup raises.
 */
module ExrRecord {
  import opened Outcomes

  datatype Point = Point(x: int, y: int)

  /** A channel-table entry: the pixel type code (`type.v`) and its sampling rates. */
  datatype Channel = Channel(pixelType: int, xSampling: int, ySampling: int)

  /** A header value as the record builder distinguishes it. */
  datatype Value =
    | Box2i(min: Point, max: Point, text: string)  // Imath.Box2i with its str() rendering
    | V2f(text: string)                           // Imath.V2f with its str() rendering
    | ChannelList(channels: map<string, Channel>)
    | ImathObject(text: string)                   // any other Imath object, such as the compression or line order
    | Other(text: string)                         // any other value, a plain JSON value

  datatype Attr = Readable(value: Value) | Unreadable(reason: string)

  /** Each name is bound once, as in the dict a header is. */
  predicate UniqueNames(pairs: seq<(string, Attr)>) {
    forall i, j :: 0 <= i < j < |pairs| ==> pairs[i].0 != pairs[j].0
  }

  /** A header: its (name, attribute) pairs in iteration order, each name once. */
  type Header = pairs: seq<(string, Attr)> | UniqueNames(pairs)

  /** What opening the file yields: the decoder's error message or the header. */
  datatype Decoded = CannotOpen(reason: string) | Opened(header: Header)

  /** A value stored in a metadata record. */
  datatype Field =
    | Str(s: string)
    | Kept(value: Value)
    | Int(n: int)
    | ChannelDetails(details: map<string, Channel>)

  type Record = map<string, Field>

  /** A computation that either finishes with a value or raises with a message. */
  datatype Attempt<T> = Done(value: T) | Raised(reason: string)

  const DataWindowKey := "dataWindow"
  const ChannelsKey := "channels"
  const DerivedKeys: set<string> := {"width", "height", "channel_details"}

  /** The names the header enumerates. */
  ghost function HeaderKeys(h: Header): set<string> {
    set i | 0 <= i < |h| :: h[i].0
  }

  /** The names of a header are those of all but its last entry, plus the last entry's. */
  lemma HeaderKeysSnoc(h: Header)
    requires |h| > 0
    ensures HeaderKeys(h) == HeaderKeys(h[..|h| - 1]) + {h[|h| - 1].0}
  {
    assert forall i | 0 <= i < |h| - 1 :: h[..|h| - 1][i] == h[i];
  }

  /** `header[key]`: the attribute last bound to `key`, as a dict built from `h` holds it. */
  function Lookup(h: Header, key: string): (r: Option<Attr>)
    ensures r.Some? <==> key in HeaderKeys(h)
    ensures r.Some? ==> exists i :: 0 <= i < |h| && h[i] == (key, r.value)
  {
    if |h| == 0 then None
    else if h[|h| - 1].0 == key then Some(h[|h| - 1].1)
    else
      var r := Lookup(h[..|h| - 1], key);
      HeaderKeysSnoc(h);
      if r.Some? then
        var i :| 0 <= i < |h[..|h| - 1]| && h[..|h| - 1][i] == (key, r.value);
        assert h[i] == (key, r.value);
        r
      else r
  }

  /** Each pair of a header is the binding its name looks up. */
  lemma LookupFindsEachPair(h: Header, i: int)
    requires 0 <= i < |h|
    ensures Lookup(h, h[i].0) == Some(h[i].1)
  {
  }

  /** The value stored for a readable header value: geometry as its string form, anything else as is. */
  function Normalize(v: Value): (r: Field)
    ensures r.Str? <==> v.Box2i? || v.V2f?
    ensures r.Str? ==> r.s == v.text
    ensures r.Kept? ==> r.value == v
    ensures Encodable(r) <==> !v.ImathObject? && !(v.ChannelList? && |v.channels| > 0)
  {
    if v.Box2i? || v.V2f? then Str(v.text) else Kept(v)
  }

  predicate AllReadable(h: Header) {
    forall i :: 0 <= i < |h| ==> h[i].1.Readable?
  }

  /** An unreadable entry after a readable prefix is still one when the header grows. */
  lemma AllReadableSnoc(h: Header)
    requires |h| > 0
    ensures AllReadable(h) <==> AllReadable(h[..|h| - 1]) && h[|h| - 1].1.Readable?
  {
    assert forall i | 0 <= i < |h| - 1 :: h[..|h| - 1][i] == h[i];
  }

  lemma FirstUnreadableExtends(h: Header, init: Header, e: string)
    requires |h| > 0 && init == h[..|h| - 1]
    requires exists i :: 0 <= i < |init| && init[i].1 == Unreadable(e) && AllReadable(init[..i])
    ensures exists i :: 0 <= i < |h| && h[i].1 == Unreadable(e) && AllReadable(h[..i])
  {
    var i :| 0 <= i < |init| && init[i].1 == Unreadable(e) && AllReadable(init[..i]);
    assert h[..i] == init[..i] && h[i] == init[i];
  }

  /**
   The header loop of get_meta_data.py:24-35. A lookup that raises cannot be
   rescued by the `except` branch, which repeats the same lookup, so the
   first unreadable attribute ends the loop with its message.
   */
  function CopyHeader(h: Header): (r: Attempt<Record>)
    ensures r.Done? <==> AllReadable(h)
    ensures r.Done? ==> r.value.Keys == HeaderKeys(h)
    ensures r.Done? ==> forall k :: k in r.value ==>
              Lookup(h, k).Some? && Lookup(h, k).value.Readable? &&
              r.value[k] == Normalize(Lookup(h, k).value.value)
    ensures r.Raised? ==>
              exists i :: (0 <= i < |h| && h[i].1 == Unreadable(r.reason) && AllReadable(h[..i]))
  {
    if |h| == 0 then Done(map[])
    else
      var init, last := h[..|h| - 1], h[|h| - 1];
      HeaderKeysSnoc(h);
      AllReadableSnoc(h);
      match CopyHeader(init)
      case Raised(e) =>
        FirstUnreadableExtends(h, init, e);
        Raised(e)
      case Done(fields) =>
        match last.1
        case Unreadable(e) =>
          assert h[..|h| - 1] == init;
          Raised(e)
        case Readable(v) => Done(fields[last.0 := Normalize(v)])
  }

  /**
   The header loop as its `except` branch evidently intends it: an attribute
   whose lookup raises is stored as text, here the message the lookup
   raised, and the loop goes on.
   */
  function CopyHeaderWithFallback(h: Header): (r: Record)
    ensures r.Keys == HeaderKeys(h)
    ensures forall k :: k in r ==>
              Lookup(h, k).Some? &&
              r[k] == match Lookup(h, k).value
                      case Readable(v) => Normalize(v)
                      case Unreadable(e) => Str(e)
  {
    if |h| == 0 then map[]
    else
      var init, last := h[..|h| - 1], h[|h| - 1];
      HeaderKeysSnoc(h);
      var stored := match last.1
                    case Readable(v) => Normalize(v)
                    case Unreadable(e) => Str(e);
      CopyHeaderWithFallback(init)[last.0 := stored]
  }

  /**
   Where the loop as written gives up on an unreadable attribute, the
   corrected loop stores its text under its name.
   */
  lemma FallbackKeepsUnreadable(h: Header, i: int)
    requires 0 <= i < |h| && h[i].1.Unreadable?
    ensures CopyHeader(h).Raised?
    ensures h[i].0 in CopyHeaderWithFallback(h) &&
            CopyHeaderWithFallback(h)[h[i].0] == Str(h[i].1.reason)
  {
    assert !h[i].1.Readable?;
    LookupFindsEachPair(h, i);
  }

  /** `str(KeyError(key))`: the key in single quotes. */
  function KeyErrorText(key: string): string {
    "'" + key + "'"
  }

  /**
   Stands for the text of the exception raised when `key` holds a value of
   the wrong kind; the exact Python wording is not modelled.
   */
  function WrongTypeText(key: string): string {
    "unexpected value for '" + key + "'"
  }

  /** `{"Error": f"Failed to process {path}: {cause}"}` */
  function ErrorRecord(path: string, cause: string): (r: Record)
    ensures r.Keys == {"Error"}
    ensures r["Error"].Str? && "Failed to process " + path + ": " <= r["Error"].s
  {
    map["Error" := Str("Failed to process " + path + ": " + cause)]
  }

  /**
   The header holds everything `get_all_exr_metadata` needs: every attribute
   readable, a `Box2i` data window and a channel list.
   */
  predicate WellFormed(h: Header) {
    && AllReadable(h)
    && Lookup(h, DataWindowKey).Some? && Lookup(h, DataWindowKey).value.Readable?
    && Lookup(h, DataWindowKey).value.value.Box2i?
    && Lookup(h, ChannelsKey).Some? && Lookup(h, ChannelsKey).value.Readable?
    && Lookup(h, ChannelsKey).value.value.ChannelList?
  }

  function DataWindow(h: Header): Value
    requires WellFormed(h)
  {
    Lookup(h, DataWindowKey).value.value
  }

  function ChannelTable(h: Header): map<string, Channel>
    requires WellFormed(h)
  {
    Lookup(h, ChannelsKey).value.value.channels
  }

  /**
   The copied header with the derived fields written over it: their names
   are added, every other entry is left alone, and they hold the values
   written last.
   */
  function WithDerived(fields: Record, dw: Value, channels: map<string, Channel>): (r: Record)
    requires dw.Box2i?
    ensures r.Keys == fields.Keys + DerivedKeys
    ensures forall k :: k in fields && k !in DerivedKeys ==> r[k] == fields[k]
    ensures HasDerivedFields(r, dw, channels)
  {
    DerivedNamesDiffer();
    fields["width" := Int(dw.max.x - dw.min.x + 1)]
          ["height" := Int(dw.max.y - dw.min.y + 1)]
          ["channel_details" := ChannelDetails(channels)]
  }

  /** The derived field names are three different strings. */
  lemma DerivedNamesDiffer()
    ensures "width" != "height" && "width" != "channel_details" && "height" != "channel_details"
  {
    assert |"width"| == 5 && |"height"| == 6 && |"channel_details"| == 15;
  }

  /**
   The derived fields of get_meta_data.py:38-53: the size of the data
   window, both bounds inclusive, and the channel table.
   */
  predicate HasDerivedFields(r: Record, dw: Value, channels: map<string, Channel>)
    requires dw.Box2i?
  {
    && "width" in r && r["width"] == Int(dw.max.x - dw.min.x + 1)
    && "height" in r && r["height"] == Int(dw.max.y - dw.min.y + 1)
    && "channel_details" in r && r["channel_details"] == ChannelDetails(channels)
  }

  /** Every other key holds its header value, geometry as its string form. */
  ghost predicate HasHeaderFields(r: Record, h: Header) {
    forall k :: k in r && k !in DerivedKeys ==>
      Lookup(h, k).Some? && Lookup(h, k).value.Readable? &&
      r[k] == Normalize(Lookup(h, k).value.value)
  }

  /** What the record of a well-formed header holds. */
  lemma WithDerivedContents(h: Header)
    requires WellFormed(h)
    ensures CopyHeader(h).Done?
    ensures var r := WithDerived(CopyHeader(h).value, DataWindow(h), ChannelTable(h));
            && r.Keys == HeaderKeys(h) + DerivedKeys
            && HasHeaderFields(r, h)
            && HasDerivedFields(r, DataWindow(h), ChannelTable(h))
  {
    var fields, dw, channels := CopyHeader(h).value, DataWindow(h), ChannelTable(h);
    var r := WithDerived(fields, dw, channels);
    assert HasHeaderFields(r, h) by {
      forall k | k in r && k !in DerivedKeys
        ensures Lookup(h, k).Some? && Lookup(h, k).value.Readable? &&
                r[k] == Normalize(Lookup(h, k).value.value)
      {
        assert r[k] == fields[k];
      }
    }
  }

  /** get_all_exr_metadata (get_meta_data.py:11-60). */
  function ExtractMetadata(path: string, d: Decoded): (r: Record)
    // a file that cannot be opened gives exactly the error record
    ensures d.CannotOpen? ==> r == map["Error" := Str("Failed to process " + path + ": " + d.reason)]
    // any failure replaces the whole record by the single Error entry
    ensures !(d.Opened? && WellFormed(d.header)) ==>
              r.Keys == {"Error"} && r["Error"].Str? &&
              "Failed to process " + path + ": " <= r["Error"].s
    // coverage: every header key, plus the derived fields
    ensures d.Opened? && WellFormed(d.header) ==>
              r.Keys == HeaderKeys(d.header) + DerivedKeys
    // geometry stringified, the rest unchanged
    ensures d.Opened? && WellFormed(d.header) ==> HasHeaderFields(r, d.header)
    // derived fields computed from the data window and channel list, overriding the header
    ensures d.Opened? && WellFormed(d.header) ==>
              HasDerivedFields(r, DataWindow(d.header), ChannelTable(d.header))
  {
    match d
    case CannotOpen(e) => ErrorRecord(path, e)
    case Opened(h) =>
      if WellFormed(h) then
        WithDerivedContents(h);
        WithDerived(CopyHeader(h).value, DataWindow(h), ChannelTable(h))
      else ErrorRecord(path, FailureCause(h))
  }

  /**
   Whether `json.dump` can write a header value kept as is. An Imath object
   cannot be encoded; the channel table is a dict, which fails only on its
   first entry, an Imath channel object, so an empty one is written as `{}`.
   */
  predicate EncodableValue(v: Value) {
    match v
    case Box2i(_, _, _) => false
    case V2f(_) => false
    case ChannelList(channels) => |channels| == 0
    case ImathObject(_) => false
    case Other(_) => true
  }

  /** Whether `json.dump` can write a stored field; only a kept header value may fail. */
  predicate Encodable(f: Field)
    ensures f.Str? || f.Int? || f.ChannelDetails? ==> Encodable(f)
    ensures f.Kept? && f.value.ImathObject? ==> !Encodable(f)
    ensures f.Kept? && f.value.ChannelList? ==> (Encodable(f) <==> |f.value.channels| == 0)
  {
    match f
    case Kept(v) => EncodableValue(v)
    case _ => true
  }

  predicate RecordEncodable(r: Record) {
    forall k :: k in r ==> Encodable(r[k])
  }

  /**
   Every header value the record of `h` keeps under its own name can be
   encoded; a value under a derived name is overwritten and does not count.
   */
  ghost predicate HeaderEncodable(h: Header) {
    forall i :: 0 <= i < |h| && h[i].0 !in DerivedKeys && h[i].1.Readable? ==>
      !h[i].1.value.ImathObject? &&
      !(h[i].1.value.ChannelList? && |h[i].1.value.channels| > 0)
  }

  /**
   `json.dump` can write a file's record exactly when processing the file
   failed, or its header holds no value that cannot be encoded.
   */
  lemma EncodableExactly(path: string, d: Decoded)
    ensures RecordEncodable(ExtractMetadata(path, d)) <==>
              !(d.Opened? && WellFormed(d.header)) || HeaderEncodable(d.header)
  {
    if d.Opened? && WellFormed(d.header) {
      var h, r := d.header, ExtractMetadata(path, d);
      if HeaderEncodable(h) {
        forall k | k in r ensures Encodable(r[k]) {
          if k !in DerivedKeys {
            var i :| 0 <= i < |h| && h[i] == (k, Lookup(h, k).value);
            assert h[i].0 !in DerivedKeys && h[i].1.Readable?;
          }
        }
      }
      if RecordEncodable(r) {
        forall i | 0 <= i < |h| && h[i].0 !in DerivedKeys && h[i].1.Readable?
          ensures !h[i].1.value.ImathObject? &&
                  !(h[i].1.value.ChannelList? && |h[i].1.value.channels| > 0)
        {
          LookupFindsEachPair(h, i);
          assert h[i].0 in HeaderKeys(h);
          assert Encodable(r[h[i].0]);
        }
      }
    }
  }

  /**
   A well-formed header with at least one channel keeps the channel table
   under `channels`, so `json.dump` cannot write its record.
   */
  lemma ChannelsBlockDump(path: string, h: Header)
    requires WellFormed(h) && |ChannelTable(h)| > 0
    ensures !RecordEncodable(ExtractMetadata(path, Opened(h)))
  {
    KeyNamesDiffer();
    var i :| 0 <= i < |h| && h[i] == (ChannelsKey, Lookup(h, ChannelsKey).value);
    assert h[i].1.value.ChannelList? && |h[i].1.value.channels| > 0;
    EncodableExactly(path, Opened(h));
  }

  /**
   The message of the exception that stops a header that is not well
   formed, in the order get_meta_data.py:24-53 meets them: an unreadable
   attribute, then the data window (missing or of the wrong kind), then the
   channel list.
   */
  function FailureCause(h: Header): (r: string)
    ensures CopyHeader(h).Raised? ==> r == CopyHeader(h).reason
    ensures AllReadable(h) && DataWindowKey !in HeaderKeys(h) ==> r == KeyErrorText(DataWindowKey)
  {
    match CopyHeader(h)
    case Raised(e) => e
    case Done(_) =>
      match Lookup(h, DataWindowKey)
      case None => KeyErrorText(DataWindowKey)
      case Some(Unreadable(e)) => e
      case Some(Readable(dw)) =>
        if !dw.Box2i? then WrongTypeText(DataWindowKey)
        else
          match Lookup(h, ChannelsKey)
          case None => KeyErrorText(ChannelsKey)
          case Some(Unreadable(e)) => e
          case Some(Readable(cs)) => WrongTypeText(ChannelsKey)
  }

  /**
   An attribute whose lookup raises does not degrade to a string: the first
   one in header order turns the whole record into the error record.
   */
  lemma UnreadableAttributeFailsFile(path: string, h: Header, i: int)
    requires 0 <= i < |h| && h[i].1.Unreadable? && AllReadable(h[..i])
    ensures ExtractMetadata(path, Opened(h)) == ErrorRecord(path, h[i].1.reason)
  {
    assert !AllReadable(h) by {
      assert !h[i].1.Readable?;
    }
    var e := CopyHeader(h).reason;
    var j :| 0 <= j < |h| && h[j].1 == Unreadable(e) && AllReadable(h[..j]);
    assert forall m :: 0 <= m < i ==> h[m].1.Readable? by {
      forall m | 0 <= m < i ensures h[m].1.Readable? {
        assert h[..i][m] == h[m];
      }
    }
    assert forall m :: 0 <= m < j ==> h[m].1.Readable? by {
      forall m | 0 <= m < j ensures h[m].1.Readable? {
        assert h[..j][m] == h[m];
      }
    }
    assert j == i;
  }

  /** The header names the record builder looks up differ from each other and from the derived names. */
  lemma KeyNamesDiffer()
    ensures DataWindowKey != ChannelsKey
    ensures DataWindowKey !in DerivedKeys && ChannelsKey !in DerivedKeys
  {
    assert |DataWindowKey| == 10 && |ChannelsKey| == 8;
    assert |"width"| == 5 && |"height"| == 6 && |"channel_details"| == 15;
  }

  /**
   A readable header ending in a data window and a channel list gives a
   record whose derived fields come from those two.
   */
  lemma WindowThenChannels(path: string, h: Header, box: Value, channels: map<string, Channel>)
    requires |h| >= 2 && box.Box2i? && AllReadable(h)
    requires h[|h| - 2] == (DataWindowKey, Readable(box))
    requires h[|h| - 1] == (ChannelsKey, Readable(ChannelList(channels)))
    ensures WellFormed(h)
    ensures HasDerivedFields(ExtractMetadata(path, Opened(h)), box, channels)
  {
    KeyNamesDiffer();
    var init := h[..|h| - 1];
    assert init[|init| - 1] == h[|h| - 2];
    assert Lookup(init, DataWindowKey) == Some(Readable(box));
    assert DataWindow(h) == box && ChannelTable(h) == channels;
  }

  /** A 640 by 480 data window, (0,0) to (639,479), gives width 640 and height 480. */
  lemma DataWindowSize(path: string, text: string, channels: map<string, Channel>)
    ensures var h := [(DataWindowKey, Readable(Box2i(Point(0, 0), Point(639, 479), text))),
                      (ChannelsKey, Readable(ChannelList(channels)))];
            var r := ExtractMetadata(path, Opened(h));
            "width" in r && r["width"] == Int(640) && "height" in r && r["height"] == Int(480)
  {
    var box := Box2i(Point(0, 0), Point(639, 479), text);
    var h := [(DataWindowKey, Readable(box)), (ChannelsKey, Readable(ChannelList(channels)))];
    WindowThenChannels(path, h, box, channels);
    var r := ExtractMetadata(path, Opened(h));
    assert box.max.x - box.min.x + 1 == 640 && box.max.y - box.min.y + 1 == 480;
    assert r["width"] == Int(640) && r["height"] == Int(480);
  }

  /** A header attribute named `width` is overwritten by the computed width. */
  lemma DerivedFieldOverridesHeader(path: string, box: Value, channels: map<string, Channel>)
    requires box.Box2i?
    ensures var h := [("width", Readable(Other("7"))), (DataWindowKey, Readable(box)),
                      (ChannelsKey, Readable(ChannelList(channels)))];
            var r := ExtractMetadata(path, Opened(h));
            "width" in r && r["width"] == Int(box.max.x - box.min.x + 1)
  {
    var h := [("width", Readable(Other("7"))), (DataWindowKey, Readable(box)),
              (ChannelsKey, Readable(ChannelList(channels)))];
    WindowThenChannels(path, h, box, channels);
  }

  /** A header with an empty channel table and no other Imath object gives a record `json.dump` can write. */
  lemma EmptyChannelTableEncodes(path: string, box: Value)
    requires box.Box2i?
    ensures var h := [(DataWindowKey, Readable(box)), (ChannelsKey, Readable(ChannelList(map[])))];
            RecordEncodable(ExtractMetadata(path, Opened(h)))
  {
    var h := [(DataWindowKey, Readable(box)), (ChannelsKey, Readable(ChannelList(map[])))];
    WindowThenChannels(path, h, box, map[]);
    KeyNamesDiffer();
    EncodableExactly(path, Opened(h));
  }

  /** The header's compression, an Imath enum object kept as is, makes the record unwritable. */
  lemma CompressionBlocksDump(path: string, box: Value, text: string)
    requires box.Box2i?
    ensures var h := [("compression", Readable(ImathObject(text))), (DataWindowKey, Readable(box)),
                      (ChannelsKey, Readable(ChannelList(map[])))];
            !RecordEncodable(ExtractMetadata(path, Opened(h)))
  {
    var h := [("compression", Readable(ImathObject(text))), (DataWindowKey, Readable(box)),
              (ChannelsKey, Readable(ChannelList(map[])))];
    WindowThenChannels(path, h, box, map[]);
    var r := ExtractMetadata(path, Opened(h));
    assert |"compression"| == 11;
    LookupFindsEachPair(h, 0);
    assert h[0].0 in HeaderKeys(h);
    assert !Encodable(r["compression"]);
  }
}
