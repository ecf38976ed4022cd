/** The canonical, format-independent records every translator produces
    (`AudioFileTags` and `AudioFileProperties`), the raw values the tag library
    hands back, and the errors the translators and the dispatcher can raise. */
module Schema {
  import opened Results

  newtype byte = x: int | 0 <= x < 256

  type Bytes = seq<byte>

  /** An ID3 timestamp object; `text` is its `.text` attribute (and its `str()`). */
  datatype Timestamp = Timestamp(text: string)

  /** A value as the tag library returns it and as a translator stores it in a
      tag field. Most are text; the source stores the library's object unchanged
      when a key holds something else. */
  datatype Value =
    | Text(s: string)
      /** an ID3 timestamp (timestamp frames such as TDRC) */
    | Stamp(stamp: Timestamp)
      /** an MP4 integer pair such as `trkn` = (track, total) */
    | Pair(number: int, total: int)
      /** an MP4 byte payload (freeform atoms, cover art) with its UTF-8
          decoding, `None` when the bytes are not valid UTF-8 */
    | Payload(data: Bytes, utf8: Option<string>)
      /** an MP4 integer (integer atoms such as `tmpo` and `rtng`) */
    | Int(n: int)

  /** The 21 fixed fields of the canonical tag record. */
  datatype Field =
    | Title | Artist | Album | AlbumArtist | Composer | Date | Genre
    | TrackNumber | TotalTracks | DiscNumber | TotalDiscs | Bpm | Key | Lyrics
    | Comment | DateAdded | DateAllPlays | DateLastPlayed | PlayCount | Votes | Rating

  /** The canonical tag record: the fixed fields plus `otherTags`, which maps a
      lower-case tag name to the value of a native key no fixed field reads. */
  datatype Tags = Tags(
    title: Value, artist: Value, album: Value, albumArtist: Value,
    composer: Value, date: Value, genre: Value,
    trackNumber: Value, totalTracks: Value, discNumber: Value, totalDiscs: Value,
    bpm: Value, key: Value, lyrics: Value, comment: Value,
    dateAdded: Value, dateAllPlays: Value, dateLastPlayed: Value,
    playCount: Value, votes: Value, rating: Value,
    otherTags: map<string, Value>)
  {
    function Get(f: Field): Value {
      match f
      case Title => title
      case Artist => artist
      case Album => album
      case AlbumArtist => albumArtist
      case Composer => composer
      case Date => date
      case Genre => genre
      case TrackNumber => trackNumber
      case TotalTracks => totalTracks
      case DiscNumber => discNumber
      case TotalDiscs => totalDiscs
      case Bpm => bpm
      case Key => key
      case Lyrics => lyrics
      case Comment => comment
      case DateAdded => dateAdded
      case DateAllPlays => dateAllPlays
      case DateLastPlayed => dateLastPlayed
      case PlayCount => playCount
      case Votes => votes
      case Rating => rating
    }
  }

  /** The record whose fixed fields are read by `read` and whose `otherTags` is `other`. */
  function Build(read: Field -> Value, other: map<string, Value>): (r: Tags)
    ensures forall f :: r.Get(f) == read(f)
    ensures r.otherTags == other
  {
    Tags(read(Title), read(Artist), read(Album), read(AlbumArtist), read(Composer),
      read(Date), read(Genre), read(TrackNumber), read(TotalTracks), read(DiscNumber),
      read(TotalDiscs), read(Bpm), read(Key), read(Lyrics), read(Comment),
      read(DateAdded), read(DateAllPlays), read(DateLastPlayed), read(PlayCount),
      read(Votes), read(Rating), other)
  }

  /** The five fields the FLAC and MP3 translators write back, in the order
      they assign them. */
  const WriteOrder: seq<Field> := [DateAllPlays, DateLastPlayed, PlayCount, Votes, Rating]

  /** The texts of `fields` in order, or the failure raised for the first field
      whose value is not text, reported under that field's native key. */
  function TextsToWrite(tags: Tags, fields: seq<Field>, keyOf: Field -> string): (r: Result<seq<string>, Error>)
    ensures r.Success? <==> forall f | f in fields :: tags.Get(f).Text?
    ensures r.Success? ==> |r.value| == |fields|
    ensures r.Success? ==> forall i | 0 <= i < |fields| :: tags.Get(fields[i]) == Text(r.value[i])
    ensures r.Failure? ==> exists i | 0 <= i < |fields| ::
      r.error == NotWritable(keyOf(fields[i])) && !tags.Get(fields[i]).Text?
        && forall j | 0 <= j < i :: tags.Get(fields[j]).Text?
    decreases |fields|
  {
    if |fields| == 0 then Success([])
    else
      assert forall f :: f in fields <==> f == fields[0] || f in fields[1..] by {
        assert fields == [fields[0]] + fields[1..];
      }
      match tags.Get(fields[0])
      case Text(s) =>
        var rest :- TextsToWrite(tags, fields[1..], keyOf);
        Success([s] + rest)
      case _ => Failure(NotWritable(keyOf(fields[0])))
  }

  /** The four replay-gain sub-fields of the properties record. */
  datatype ReplayGain = ReplayGain(albumGain: Value, albumPeak: Value, trackGain: Value, trackPeak: Value)

  /** What the filesystem helpers report for the file: its size in bytes and its
      modification time already formatted for display. */
  datatype FileStat = FileStat(size: int, dateModified: string)

  /** The canonical properties record. `bitDepth` is `None` where the source
      stores `''` (MP3). */
  datatype Properties = Properties(
    fileSize: int, fileDateModified: string, format: string,
    bitDepth: Option<int>, numChannels: int, sampleRate: int,
    encoder: string, bitRateMode: string, codec: string,
    replayGain: ReplayGain)

  /** The exceptions the modelled code can raise. */
  datatype Error =
      /** `ValueError`: the path is not an existing file */
    | InvalidPath(path: string)
      /** the extension is not a supported audio type */
    | UnsupportedFormat(path: string)
      /** `AttributeError`: the handler bound no translator */
    | NoTranslator
      /** `TypeError`: the MP3 translator's library handle is still `None` */
    | NoInterfaceLoaded
      /** `ValueError` from `list.remove`: a key to drop is not in the key list */
    | KeyNotInList(key: string)
      /** `AttributeError`: the value read for `key` has no `.text` */
    | NoTextAttribute(key: string)
      /** `AttributeError`: the frame under `key` has no `.data` */
    | NoDataAttribute(key: string)
      /** `TypeError`: `';'.join` over values of `key` that are not all text */
    | NotJoinable(key: string)
      /** `TypeError`: `'/' in v` for a value of `key` that is not text */
    | NotSearchable(key: string)
      /** `AttributeError`/`UnicodeDecodeError`: a payload of `key` cannot be decoded as UTF-8 */
    | NotDecodable(key: string)
      /** the library refuses to save a non-text value under `key` */
    | NotWritable(key: string)
      /** `TypeError`: `len()` of the bare (not list) value stored under `key` */
    | NoLength(key: string)
}
