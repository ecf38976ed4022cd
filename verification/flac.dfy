/** The FLAC translator (`mlu/tags/audiofmt/flac.py`): Vorbis comment keys, each
    holding a list of strings, mapped onto the canonical records. */
module Flac {
  import opened Results
  import opened Strings
  import opened Codec
  import opened NativeTables
  import opened Schema

  /** The Vorbis comment key each fixed field reads. */
  function KeyOf(f: Field): string {
    match f
    case Title => "title"
    case Artist => "artist"
    case Album => "album"
    case AlbumArtist => "albumartist"
    case Composer => "composer"
    case Date => "date"
    case Genre => "genre"
    case TrackNumber => "tracknumber"
    case TotalTracks => "tracktotal"
    case DiscNumber => "discnumber"
    case TotalDiscs => "disctotal"
    case Bpm => "bpm"
    case Key => "key"
    case Lyrics => "lyrics"
    case Comment => "comment"
    case DateAdded => "date_added"
    case DateAllPlays => "date_all_plays"
    case DateLastPlayed => "date_last_played"
    case PlayCount => "play_count"
    case Votes => "votes"
    case Rating => "rating"
  }

  /** `k` is the key some fixed field reads. */
  predicate IsFieldKey(k: string) {
    exists f :: KeyOf(f) == k
  }

  /** The fixed fields in the order the translator reads them. */
  const FieldOrder: seq<Field> := [
    Title, Artist, Album, AlbumArtist, Composer, Date, Genre,
    TrackNumber, TotalTracks, DiscNumber, TotalDiscs, Bpm, Key, Lyrics,
    Comment, DateAdded, DateAllPlays, DateLastPlayed, PlayCount, Votes, Rating]

  /** The key list against which leftover keys are classified. */
  const FixedKeys: seq<string> := [
    "title", "artist", "album", "albumartist", "composer", "date", "genre",
    "tracknumber", "tracktotal", "discnumber", "disctotal", "bpm", "key",
    "lyrics", "comment", "date_added", "date_all_plays", "date_last_played",
    "play_count", "votes", "rating"]

  /** Keys read into the properties record and kept out of `otherTags`. */
  const ReplayGainKeys: seq<string> := [
    "replaygain_album_gain", "replaygain_album_peak",
    "replaygain_track_gain", "replaygain_track_peak"]

  /** The keys `setTags` assigns, in assignment order. */
  const WrittenKeys: seq<string> := [
    "date_all_plays", "date_last_played", "play_count", "votes", "rating"]

  /** The classification list is exactly the key table read in field order. */
  lemma FixedKeysFollowFieldOrder()
    ensures |FixedKeys| == |FieldOrder|
    ensures forall i | 0 <= i < |FieldOrder| :: FixedKeys[i] == KeyOf(FieldOrder[i])
  {
  }

  lemma FieldInFieldOrder(f: Field)
    ensures f in FieldOrder
  {
  }

  /** Every fixed field's key is on the classification list. */
  lemma FieldKeyIsFixed(f: Field)
    ensures KeyOf(f) in FixedKeys
  {
    FixedKeysFollowFieldOrder();
    FieldInFieldOrder(f);
    var i :| 0 <= i < |FieldOrder| && FieldOrder[i] == f;
    assert FixedKeys[i] == KeyOf(f);
  }

  /** Every key on the classification list is read by some fixed field. */
  lemma FixedKeyHasField(k: string)
    requires k in FixedKeys
    ensures exists f :: KeyOf(f) == k
  {
    FixedKeysFollowFieldOrder();
    var i :| 0 <= i < |FixedKeys| && FixedKeys[i] == k;
    assert KeyOf(FieldOrder[i]) == k;
  }

  /** The classification list holds exactly the keys the fixed fields read. */
  lemma FixedKeysAreFieldKeys(k: string)
    ensures k in FixedKeys <==> IsFieldKey(k)
  {
    if k in FixedKeys {
      FixedKeyHasField(k);
    }
    if IsFieldKey(k) {
      var f :| KeyOf(f) == k;
      FieldKeyIsFixed(f);
    }
  }

  /** No two fields read the same key. */
  lemma KeyOfInjective(f: Field, g: Field)
    requires KeyOf(f) == KeyOf(g)
    ensures f == g
  {
  }

  /** The written keys are the keys of the written fields, in order. */
  lemma WrittenKeysFollowWriteOrder()
    ensures |WrittenKeys| == |WriteOrder|
    ensures forall i | 0 <= i < |WriteOrder| :: WrittenKeys[i] == KeyOf(WriteOrder[i])
  {
  }

  lemma WrittenKeysDistinct()
    ensures Distinct(WrittenKeys)
  {
  }

  lemma WrittenKeysAreLower()
    ensures forall i | 0 <= i < |WrittenKeys| :: IsLower(WrittenKeys[i])
  {
  }

  lemma WrittenKeysAreFieldKeys()
    ensures forall k | k in WrittenKeys :: IsFieldKey(k)
  {
    WrittenKeysFollowWriteOrder();
    forall k | k in WrittenKeys ensures IsFieldKey(k) {
      var i :| 0 <= i < |WrittenKeys| && WrittenKeys[i] == k;
      assert KeyOf(WriteOrder[i]) == k;
    }
  }

  lemma ReplayGainKeysAreNotFixed()
    ensures forall k | k in ReplayGainKeys :: k !in FixedKeys && k !in WrittenKeys
  {
  }

  lemma ReplayGainKeysAreNotFieldKeys()
    ensures forall k | k in ReplayGainKeys :: !IsFieldKey(k)
  {
    ReplayGainKeysAreNotFixed();
    forall k | k in ReplayGainKeys ensures !IsFieldKey(k) {
      FixedKeysAreFieldKeys(k);
    }
  }

  /** A field outside the write order reads a key `setTags` never assigns. */
  lemma UnwrittenFieldKey(f: Field)
    requires f !in WriteOrder
    ensures KeyOf(f) !in WrittenKeys
  {
    WrittenKeysFollowWriteOrder();
    if KeyOf(f) in WrittenKeys {
      var i :| 0 <= i < |WrittenKeys| && WrittenKeys[i] == KeyOf(f);
      KeyOfInjective(WriteOrder[i], f);
    }
  }

  /** A Vorbis comment table as the library presents it: `keys()` lower-cases
      every key, and subscripting looks keys up case-insensitively, so the table
      is keyed by lower-case names. */
  type Comments = t: KeyTable<seq<string>> | forall k | k in t.keys :: IsLower(k)
    witness Table([], map[])

  datatype Picture = Picture(data: Bytes)

  datatype StreamInfo = StreamInfo(bitsPerSample: int, channels: int, sampleRate: int)

  /** A FLAC file as the library presents it: the Vorbis comment table, the
      embedded pictures in storage order, and the stream information. */
  datatype FlacFile = FlacFile(comments: Comments, pictures: seq<Picture>, info: StreamInfo)

  /** `_getTagValueFromMutagenInterface`: an absent key gives `""`, otherwise the
      shared decode rule over the key's values. */
  function Decode(t: Comments, key: string): (r: string)
    ensures t.Get(key).None? ==> r == ""
    ensures t.Get(key).Some? ==> r == ValuesToTag(t.Get(key).value)
  {
    DecodeEntry(t.Get(key))
  }

  /** The decode rule on the result of subscripting the table. */
  function DecodeEntry(entry: Option<seq<string>>): (r: string)
    ensures entry.None? ==> r == ""
    ensures entry.Some? ==> r == ValuesToTag(entry.value)
  {
    match entry
    case None => ""
    case Some(values) => Collapse(values)
  }

  /** Every key read back from a non-empty, `;`-free list of values splits back
      into that list. */
  lemma DecodeSplitsBack(t: Comments, key: string)
    requires t.Get(key).Some?
    requires DelimiterFree(t.Get(key).value)
    requires t.Get(key).value != [] && t.Get(key).value != [""]
    ensures TagToValues(Decode(t, key), "").parts == t.Get(key).value
  {
    CollapseSplitsBack(t.Get(key).value);
  }

  /** `_removeUnneededTagKeysFromTagKeysList`: the key list with the replay-gain
      keys removed, any absent one skipped. */
  function RelevantKeys(keys: seq<string>): (r: seq<string>)
    ensures Distinct(keys) ==> r == Without(keys, ReplayGainKeys)
  {
    RemoveEachIfPresent(keys, ReplayGainKeys)
  }

  /** The lower-cased names of the keys whose lower-case form is not a fixed key,
      in key order. */
  function OtherNames(keys: seq<string>): (r: seq<string>)
    ensures forall n :: n in r <==> n !in FixedKeys && exists k | k in keys :: Lower(k) == n
  {
    if |keys| == 0 then []
    else
      assert forall k :: k in keys <==> k == keys[0] || k in keys[1..] by {
        assert keys == [keys[0]] + keys[1..];
      }
      (if Lower(keys[0]) !in FixedKeys then [Lower(keys[0])] else []) + OtherNames(keys[1..])
  }

  /** `otherTags[name] = value` for each name in turn; each value is read back
      under the name. */
  function OtherTags(t: Comments, names: seq<string>): (r: map<string, Value>)
    ensures forall n :: n in r <==> n in names
    ensures forall n | n in r :: r[n] == Text(Decode(t, n))
  {
    if |names| == 0 then map[]
    else
      var last := names[|names| - 1];
      assert forall n :: n in names <==> n == last || n in names[..|names| - 1] by {
        assert names == names[..|names| - 1] + [last];
      }
      OtherTags(t, names[..|names| - 1])[last := Text(Decode(t, last))]
  }

  /** The leftover names of a comment table are its keys that are neither
      replay-gain keys nor keys of fixed fields. */
  lemma OtherNamesOfComments(t: Comments)
    ensures forall n :: n in OtherNames(RelevantKeys(t.keys)) <==>
      n in t.keys && n !in ReplayGainKeys && !IsFieldKey(n)
  {
    var relevant := RelevantKeys(t.keys);
    forall n | n in OtherNames(relevant) ensures n in t.keys && n !in ReplayGainKeys && !IsFieldKey(n) {
      var k :| k in relevant && Lower(k) == n;
      LowerOfLowerIsIdentity(k);
      FixedKeysAreFieldKeys(n);
    }
    forall n | n in t.keys && n !in ReplayGainKeys && !IsFieldKey(n) ensures n in OtherNames(relevant) {
      LowerOfLowerIsIdentity(n);
      FixedKeysAreFieldKeys(n);
      assert n in relevant;
    }
  }

  /** The `otherTags` map of a comment table: every key that is neither a
      replay-gain key nor the key of a fixed field, with its value read the same
      way as a fixed field's. */
  function OtherTagsOf(t: Comments): (r: map<string, Value>)
    ensures forall n :: n in r <==> n in t.keys && n !in ReplayGainKeys && !IsFieldKey(n)
    ensures forall n | n in r :: r[n] == Text(Decode(t, n))
  {
    OtherNamesOfComments(t);
    OtherTags(t, OtherNames(RelevantKeys(t.keys)))
  }

  /** `getTags`: each fixed field reads its own key, and `otherTags` holds the
      remaining keys. */
  function GetTags(file: FlacFile): (r: Tags)
    ensures forall f :: r.Get(f) == Text(Decode(file.comments, KeyOf(f)))
    ensures r.otherTags == OtherTagsOf(file.comments)
  {
    var t := file.comments;
    Build(f => Text(Decode(t, KeyOf(f))), OtherTagsOf(t))
  }

  /** A file without comments reads as blank fixed fields and no other tags. */
  lemma BlankFileReadsBlank(pictures: seq<Picture>, info: StreamInfo)
    ensures var r := GetTags(FlacFile(EmptyTable(), pictures, info));
      (forall f :: r.Get(f) == Text("")) && r.otherTags == map[]
  {
  }

  /** Every key of a comment table is accounted for exactly once: it is a
      replay-gain key, the key of a fixed field, or a name in `otherTags`. */
  lemma KeysClassified(file: FlacFile, k: string)
    requires k in file.comments.keys
    ensures var r := GetTags(file);
      && (k in ReplayGainKeys || IsFieldKey(k) || k in r.otherTags)
      && (k in ReplayGainKeys ==> !IsFieldKey(k) && k !in r.otherTags)
      && (IsFieldKey(k) ==> k !in r.otherTags)
  {
    ReplayGainKeysAreNotFieldKeys();
  }

  /** `getProperties`: the fixed format name, the stream information, and the
      four replay-gain keys read like any tag; `fileSize` and `fileDateModified`
      come from the filesystem. */
  function GetProperties(file: FlacFile, stat: FileStat): (r: Properties)
    ensures r.format == "FLAC" && r.encoder == "" && r.bitRateMode == "" && r.codec == ""
    ensures r.bitDepth == Some(file.info.bitsPerSample)
    ensures r.numChannels == file.info.channels && r.sampleRate == file.info.sampleRate
    ensures r.fileSize == stat.size && r.fileDateModified == stat.dateModified
    ensures r.replayGain.albumGain == Text(Decode(file.comments, ReplayGainKeys[0]))
    ensures r.replayGain.albumPeak == Text(Decode(file.comments, ReplayGainKeys[1]))
    ensures r.replayGain.trackGain == Text(Decode(file.comments, ReplayGainKeys[2]))
    ensures r.replayGain.trackPeak == Text(Decode(file.comments, ReplayGainKeys[3]))
  {
    var t := file.comments;
    Properties(
      fileSize := stat.size,
      fileDateModified := stat.dateModified,
      format := "FLAC",
      bitDepth := Some(file.info.bitsPerSample),
      numChannels := file.info.channels,
      sampleRate := file.info.sampleRate,
      encoder := "",
      bitRateMode := "",
      codec := "",
      replayGain := ReplayGain(
        Text(Decode(t, "replaygain_album_gain")), Text(Decode(t, "replaygain_album_peak")),
        Text(Decode(t, "replaygain_track_gain")), Text(Decode(t, "replaygain_track_peak"))))
  }

  /** `getEmbeddedArtwork`: the data of every embedded picture, in storage order. */
  method GetEmbeddedArtwork(file: FlacFile) returns (artworks: seq<Bytes>)
    ensures |artworks| == |file.pictures|
    ensures forall i | 0 <= i < |artworks| :: artworks[i] == file.pictures[i].data
  {
    artworks := [];
    var i := 0;
    while i < |file.pictures|
      invariant 0 <= i <= |file.pictures|
      invariant |artworks| == i
      invariant forall j | 0 <= j < i :: artworks[j] == file.pictures[j].data
    {
      artworks := artworks + [file.pictures[i].data];
      i := i + 1;
    }
  }

  /** Assigns `texts[i]` to `keys[i]` for each `i` in turn, each as a
      one-element list replacing the key's old entries. */
  function AssignAll(t: Comments, keys: seq<string>, texts: seq<string>): (r: Comments)
    requires |keys| == |texts| && Distinct(keys)
    requires forall i | 0 <= i < |keys| :: IsLower(keys[i])
    ensures forall i | 0 <= i < |keys| :: r.Get(keys[i]) == Some([texts[i]])
    ensures forall k | k !in keys :: r.Get(k) == t.Get(k)
    ensures forall k :: k in r.keys <==> k in t.keys || k in keys
  {
    var values := seq(|texts|, i requires 0 <= i < |texts| => [texts[i]]);
    var r := PutAll(t, keys, values, true);
    assert forall k | k in r.keys :: IsLower(k);
    assert forall i | 0 <= i < |keys| :: r.Get(keys[i]) == Some(values[i]);
    r
  }

  /** The comment table after the five assignments of `setTags`. */
  function WriteComments(t: Comments, texts: seq<string>): (r: Comments)
    requires |texts| == |WrittenKeys|
    ensures forall i | 0 <= i < |WrittenKeys| :: r.Get(WrittenKeys[i]) == Some([texts[i]])
    ensures forall k | k !in WrittenKeys :: r.Get(k) == t.Get(k)
    ensures forall k :: k in r.keys <==> k in t.keys || k in WrittenKeys
  {
    WrittenKeysDistinct();
    WrittenKeysAreLower();
    AssignAll(t, WrittenKeys, texts)
  }

  /** Each assigned key reads back as the text assigned to it. */
  lemma WrittenKeysReadBack(t: Comments, texts: seq<string>)
    requires |texts| == |WrittenKeys|
    ensures forall i | 0 <= i < |WrittenKeys| :: Decode(WriteComments(t, texts), WrittenKeys[i]) == texts[i]
  {
    var r := WriteComments(t, texts);
    forall i | 0 <= i < |WrittenKeys| ensures Decode(r, WrittenKeys[i]) == texts[i] {
      assert r.Get(WrittenKeys[i]) == Some([texts[i]]);
      assert Collapse([texts[i]]) == texts[i];
    }
  }

  /** The values assigned by `setTags` read back as the fields they came from. */
  lemma WrittenFieldsReadBack(t: Comments, tags: Tags, texts: seq<string>)
    requires |texts| == |WriteOrder|
    requires forall i | 0 <= i < |WriteOrder| :: tags.Get(WriteOrder[i]) == Text(texts[i])
    ensures forall f | f in WriteOrder :: Text(Decode(WriteComments(t, texts), KeyOf(f))) == tags.Get(f)
  {
    WrittenKeysFollowWriteOrder();
    WrittenKeysReadBack(t, texts);
    FieldsReadBack(WriteComments(t, texts), WriteOrder, WrittenKeys, tags, texts);
  }

  /** Fields whose keys read back as the fields' own texts read back as the fields. */
  lemma FieldsReadBack(r: Comments, fields: seq<Field>, keys: seq<string>, tags: Tags, texts: seq<string>)
    requires |fields| == |keys| == |texts|
    requires forall i | 0 <= i < |fields| :: keys[i] == KeyOf(fields[i])
    requires forall i | 0 <= i < |keys| :: Decode(r, keys[i]) == texts[i]
    requires forall i | 0 <= i < |fields| :: tags.Get(fields[i]) == Text(texts[i])
    ensures forall f | f in fields :: Text(Decode(r, KeyOf(f))) == tags.Get(f)
  {
  }

  /** `setTags`: the five written fields are assigned, in order, to their keys
      and the file is saved; a value the library cannot store as text makes the
      save fail. */
  function SetTags(file: FlacFile, tags: Tags): (r: Result<FlacFile, Error>)
    ensures r.Success? <==> forall f | f in WriteOrder :: tags.Get(f).Text?
    ensures r.Success? ==> forall f | f in WriteOrder ::
      Text(Decode(r.value.comments, KeyOf(f))) == tags.Get(f)
    ensures r.Success? ==> forall k | k !in WrittenKeys ::
      r.value.comments.Get(k) == file.comments.Get(k)
    ensures r.Success? ==> forall k :: k in r.value.comments.keys <==>
      k in file.comments.keys || k in WrittenKeys
    ensures r.Success? ==> r.value.pictures == file.pictures && r.value.info == file.info
  {
    var texts :- TextsToWrite(tags, WriteOrder, KeyOf);
    WrittenFieldsReadBack(file.comments, tags, texts);
    Success(file.(comments := WriteComments(file.comments, texts)))
  }

  /** Reading after a successful `setTags` gives the written values in the five
      written fields and leaves every other field and `otherTags` as before. */
  lemma SetThenGet(file: FlacFile, tags: Tags)
    requires SetTags(file, tags).Success?
    ensures var before := GetTags(file);
      var after := GetTags(SetTags(file, tags).value);
      && (forall f :: after.Get(f) == if f in WriteOrder then tags.Get(f) else before.Get(f))
      && after.otherTags == before.otherTags
  {
    WrittenKeysAreFieldKeys();
    var written := SetTags(file, tags).value;
    FieldsAfterAssigning(file, written, WrittenKeys);
    OtherTagsAfterAssigning(file.comments, written.comments, WrittenKeys);
    forall f | f !in WriteOrder ensures KeyOf(f) !in WrittenKeys {
      UnwrittenFieldKey(f);
    }
  }

  /** Assigning some keys leaves every field that reads another key as it was. */
  lemma FieldsAfterAssigning(file: FlacFile, file': FlacFile, keys: seq<string>)
    requires forall k | k !in keys :: file'.comments.Get(k) == file.comments.Get(k)
    ensures forall f | KeyOf(f) !in keys :: GetTags(file').Get(f) == GetTags(file).Get(f)
  {
  }

  /** Assigning fixed keys leaves `otherTags` as it was. */
  lemma OtherTagsAfterAssigning(t: Comments, t': Comments, keys: seq<string>)
    requires forall k | k !in keys :: t'.Get(k) == t.Get(k)
    requires forall k :: k in t'.keys <==> k in t.keys || k in keys
    requires forall k | k in keys :: IsFieldKey(k)
    ensures OtherTagsOf(t') == OtherTagsOf(t)
  {
    LeftoverMapsAgree(t, t', keys, OtherTagsOf(t), OtherTagsOf(t'));
  }

  /** Two maps that each hold exactly the leftover keys of their table, read
      from that table, agree when the tables differ only in field keys. */
  lemma LeftoverMapsAgree(t: Comments, t': Comments, keys: seq<string>, m: map<string, Value>, m': map<string, Value>)
    requires forall k | k !in keys :: t'.Get(k) == t.Get(k)
    requires forall k :: k in t'.keys <==> k in t.keys || k in keys
    requires forall k | k in keys :: IsFieldKey(k)
    requires forall n :: n in m <==> n in t.keys && n !in ReplayGainKeys && !IsFieldKey(n)
    requires forall n | n in m :: m[n] == Text(Decode(t, n))
    requires forall n :: n in m' <==> n in t'.keys && n !in ReplayGainKeys && !IsFieldKey(n)
    requires forall n | n in m' :: m'[n] == Text(Decode(t', n))
    ensures m' == m
  {
    forall n | n in m' ensures n in m && m'[n] == m[n] {
      assert n !in keys;
      assert t'.Get(n) == t.Get(n);
    }
  }

  /** Writing back what was read changes no tag. */
  lemma RewriteIsStable(file: FlacFile)
    ensures SetTags(file, GetTags(file)).Success?
    ensures var after := GetTags(SetTags(file, GetTags(file)).value);
      (forall f :: after.Get(f) == GetTags(file).Get(f)) && after.otherTags == GetTags(file).otherTags
  {
    SetThenGet(file, GetTags(file));
  }

  /** Writing tags leaves the properties record unchanged. */
  lemma SetTagsKeepsProperties(file: FlacFile, tags: Tags, stat: FileStat)
    requires SetTags(file, tags).Success?
    ensures GetProperties(SetTags(file, tags).value, stat) == GetProperties(file, stat)
  {
    ReplayGainKeysAreNotFixed();
    var file' := SetTags(file, tags).value;
    PropertiesAgree(file, file', stat);
  }

  /** The properties record reads only the stream information and the
      replay-gain keys. */
  lemma PropertiesAgree(file: FlacFile, file': FlacFile, stat: FileStat)
    requires file'.info == file.info
    requires forall i | 0 <= i < |ReplayGainKeys| :: file'.comments.Get(ReplayGainKeys[i]) == file.comments.Get(ReplayGainKeys[i])
    ensures GetProperties(file', stat) == GetProperties(file, stat)
  {
  }
}
