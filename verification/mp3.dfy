/** The MP3 translator (`mlu/tags/audiofmt/mp3.py`): ID3 frames, keyed by frame
    id (with a description for TXXX and COMM frames), mapped onto the canonical
    records. The translator keeps the library handle of the last file it loaded;
    `getTags` reads that handle and never loads one itself. */
module Mp3 {
  import opened Results
  import opened Strings
  import opened Codec
  import opened NativeTables
  import opened Schema

  /** An ID3 frame, classified by the attributes the translator touches. */
  datatype Frame =
      /** a text frame (T***, TXXX, COMM): `.text` is a list of strings */
    | TextFrame(text: seq<string>)
      /** a timestamp frame (TDRC and the like): `.text` is a list of timestamps */
    | TimeFrame(stamps: seq<Timestamp>)
      /** a frame whose `.text` is one string, not a list (USLT, the lyrics) */
    | StringFrame(s: string)
      /** a binary frame (APIC and the like): `.data` and no `.text` */
    | DataFrame(data: Bytes)
      /** any other frame: neither `.text` nor `.data` */
    | OtherFrame

  type Frames = KeyTable<Frame>

  datatype BitrateMode = Unknown | CBR | VBR | ABR

  /** The stream information the properties read. */
  datatype StreamInfo = StreamInfo(
    bitrateMode: BitrateMode, encoderInfo: string, encoderSettings: string,
    channels: int, sampleRate: int)

  /** An MP3 file as the tag library presents it: its frames and stream information. */
  datatype Mp3File = Mp3File(frames: Frames, info: StreamInfo)

  /** The translator's state: the library handle of the last file loaded, `None`
      until `getProperties` or `getEmbeddedArtwork` loads one. */
  datatype Handler = Handler(interface: Option<Mp3File>)

  /** A translator call that also replaces the handle: the new state and the
      value returned or the exception raised. */
  datatype Outcome<T> = Outcome(handler: Handler, result: Result<T, Error>)

  /** A freshly constructed translator holds no handle. */
  function NewHandler(): (h: Handler)
    ensures h.interface.None?
  {
    Handler(None)
  }

  // ---------------------------------------------------------------- keys

  /** The frame key each fixed field reads. Track number and total share TRCK,
      disc number and total share TPOS. */
  function KeyOf(f: Field): string {
    match f
    case Title => "TIT2"
    case Artist => "TPE1"
    case Album => "TALB"
    case AlbumArtist => "TPE2"
    case Composer => "TCOM"
    case Date => "TDRC"
    case Genre => "TCON"
    case TrackNumber => "TRCK"
    case TotalTracks => "TRCK"
    case DiscNumber => "TPOS"
    case TotalDiscs => "TPOS"
    case Bpm => "TBPM"
    case Key => "TXXX:Key"
    case Lyrics => "TXXX:LYRICS"
    case Comment => "COMM::eng"
    case DateAdded => "TXXX:DATE_ADDED"
    case DateAllPlays => "TXXX:DATE_ALL_PLAYS"
    case DateLastPlayed => "TXXX:DATE_LAST_PLAYED"
    case PlayCount => "TXXX:PLAY_COUNT"
    case Votes => "TXXX:VOTES"
    case Rating => "TXXX:RATING"
  }

  /** `k` is the key some fixed field reads. */
  predicate IsFieldKey(k: string) {
    exists f :: KeyOf(f) == k
  }

  /** The fields stored as read, without a `.text` step or a `/` split. */
  predicate IsPlain(f: Field) {
    !(f == Date || f == TrackNumber || f == TotalTracks || f == DiscNumber || f == TotalDiscs)
  }

  /** The plain fields read before the date, in reading order. */
  const LeadingFields: seq<Field> := [Title, Artist, Album, AlbumArtist, Genre, Bpm]

  /** The plain fields read after the track and disc splits, in reading order. */
  const TrailingFields: seq<Field> := [
    Composer, Key, Lyrics, Comment, DateAdded, DateAllPlays, DateLastPlayed,
    PlayCount, Votes, Rating]

  /** The fixed fields in the order of the classification list below. */
  const ListedFields: seq<Field> := [
    Title, Artist, Album, AlbumArtist, Composer, Date, Genre, TrackNumber,
    DiscNumber, Bpm, Key, Lyrics, Comment, DateAdded, DateAllPlays,
    DateLastPlayed, PlayCount, Votes, Rating]

  /** The key list against which leftover keys are classified. */
  const FixedKeys: seq<string> := [
    "TIT2", "TPE1", "TALB", "TPE2", "TCOM", "TDRC", "TCON", "TRCK", "TPOS",
    "TBPM", "TXXX:Key", "TXXX:LYRICS", "COMM::eng", "TXXX:DATE_ADDED",
    "TXXX:DATE_ALL_PLAYS", "TXXX:DATE_LAST_PLAYED", "TXXX:PLAY_COUNT",
    "TXXX:VOTES", "TXXX:RATING"]

  /** Keys removed from the key list before classification; each must be present. */
  const IgnoreKeys: seq<string> := [
    "COMM:ID3v1 Comment:eng",
    "TXXX:replaygain_album_gain", "TXXX:replaygain_album_peak",
    "TXXX:replaygain_track_gain", "TXXX:replaygain_track_peak"]

  /** Keys read into the properties record. */
  const ReplayGainKeys: seq<string> := [
    "TXXX:replaygain_album_gain", "TXXX:replaygain_album_peak",
    "TXXX:replaygain_track_gain", "TXXX:replaygain_track_peak"]

  /** The keys `setTags` assigns, in assignment order. */
  const WrittenKeys: seq<string> := [
    "TXXX:DATE_ALL_PLAYS", "TXXX:DATE_LAST_PLAYED", "TXXX:PLAY_COUNT",
    "TXXX:VOTES", "TXXX:RATING"]

  /** Picture frames are recognised by this substring of their key. */
  const PictureMarker: string := "APIC:"

  /** User text frames are recognised by this substring of their key. */
  const UserTextMarker: string := "TXXX:"

  lemma PlainFieldIsRead(f: Field)
    requires IsPlain(f)
    ensures f in LeadingFields || f in TrailingFields
  {
  }

  lemma LeadingAreNotTrailing(f: Field)
    requires f in LeadingFields
    ensures f !in TrailingFields
  {
  }

  lemma WrittenFieldsAreTrailing()
    ensures forall f | f in WriteOrder :: f in TrailingFields && IsPlain(f)
  {
  }

  lemma ListedFieldsFollowFixedKeys()
    ensures |FixedKeys| == |ListedFields|
    ensures forall i | 0 <= i < |ListedFields| :: FixedKeys[i] == KeyOf(ListedFields[i])
  {
  }

  /** Where each field's key sits on the classification list. */
  function FixedIndex(f: Field): (i: nat)
    ensures i < |FixedKeys| && FixedKeys[i] == KeyOf(f)
  {
    match f
    case Title => 0
    case Artist => 1
    case Album => 2
    case AlbumArtist => 3
    case Composer => 4
    case Date => 5
    case Genre => 6
    case TrackNumber => 7
    case TotalTracks => 7
    case DiscNumber => 8
    case TotalDiscs => 8
    case Bpm => 9
    case Key => 10
    case Lyrics => 11
    case Comment => 12
    case DateAdded => 13
    case DateAllPlays => 14
    case DateLastPlayed => 15
    case PlayCount => 16
    case Votes => 17
    case Rating => 18
  }

  /** Every field's key is on the classification list. */
  lemma FieldKeyIsFixed(f: Field)
    ensures KeyOf(f) in FixedKeys
  {
    assert FixedKeys[FixedIndex(f)] == KeyOf(f);
  }

  /** The classification list holds exactly the keys the fixed fields read. */
  lemma FixedKeysAreFieldKeys(k: string)
    ensures k in FixedKeys <==> IsFieldKey(k)
  {
    if k in FixedKeys {
      ListedFieldsFollowFixedKeys();
      var i :| 0 <= i < |FixedKeys| && FixedKeys[i] == k;
      assert KeyOf(ListedFields[i]) == k;
    }
    if IsFieldKey(k) {
      var f :| KeyOf(f) == k;
      FieldKeyIsFixed(f);
    }
  }

  lemma WrittenKeysFollowWriteOrder()
    ensures |WrittenKeys| == |WriteOrder|
    ensures forall i | 0 <= i < |WriteOrder| :: WrittenKeys[i] == KeyOf(WriteOrder[i])
  {
  }

  lemma WrittenKeysDistinct()
    ensures Distinct(WrittenKeys)
  {
  }

  lemma IgnoreKeysDistinct()
    ensures Distinct(IgnoreKeys)
  {
  }

  /** The written keys are on the classification list. */
  lemma WrittenKeysAreFixed()
    ensures forall k | k in WrittenKeys :: k in FixedKeys
  {
    WrittenKeysFollowWriteOrder();
    forall k | k in WrittenKeys ensures k in FixedKeys {
      var i :| 0 <= i < |WrittenKeys| && WrittenKeys[i] == k;
      FieldKeyIsFixed(WriteOrder[i]);
    }
  }

  /** Only the written fields read a written key. */
  lemma UnwrittenFieldKey(f: Field)
    requires f !in WriteOrder
    ensures KeyOf(f) !in WrittenKeys
  {
  }

  /** No key on the ignore list is a picture key. */
  lemma IgnoreKeysAreNotPictures()
    ensures forall k | k in IgnoreKeys :: !Contains(k, PictureMarker)
  {
    forall k | k in IgnoreKeys ensures !Contains(k, PictureMarker) {
      MissingCharNotContained(k, PictureMarker, 'P');
    }
  }

  /** Each long key on the classification list lacks one of the letters of
      the picture marker. */
  lemma LongKeyIsNotPicture(k: string)
    requires k in FixedKeys[10..]
    ensures !Contains(k, PictureMarker)
  {
    if k in ["TXXX:DATE_ALL_PLAYS", "TXXX:DATE_LAST_PLAYED", "TXXX:PLAY_COUNT"] {
      LacksLetter(k, 'I');
    } else if k in ["TXXX:DATE_ADDED", "TXXX:RATING"] {
      LacksLetter(k, 'P');
    } else {
      assert k in ["TXXX:Key", "TXXX:LYRICS", "COMM::eng", "TXXX:VOTES"];
      LacksLetter(k, 'A');
    }
  }

  /** The letter of the picture marker each long key lacks. */
  lemma LacksLetter(k: string, c: char)
    requires
      || (c == 'I' && k in ["TXXX:DATE_ALL_PLAYS", "TXXX:DATE_LAST_PLAYED", "TXXX:PLAY_COUNT"])
      || (c == 'P' && k in ["TXXX:DATE_ADDED", "TXXX:RATING"])
      || (c == 'A' && k in ["TXXX:Key", "TXXX:LYRICS", "COMM::eng", "TXXX:VOTES"])
    ensures !Contains(k, PictureMarker)
  {
    MissingCharNotContained(k, PictureMarker, c);
  }

  /** No key on the classification list is a picture key. */
  lemma FixedKeyIsNotPicture(k: string)
    requires k in FixedKeys
    ensures !Contains(k, PictureMarker)
  {
    if |k| < |PictureMarker| {
      if Contains(k, PictureMarker) {
        ContainsIsLongEnough(k, PictureMarker);
      }
    } else {
      assert k in FixedKeys[10..];
      LongKeyIsNotPicture(k);
    }
  }

  /** The classification list and the ignore list have no key in common. */
  lemma FixedKeysAreNotIgnored()
    ensures forall k | k in FixedKeys :: k !in IgnoreKeys
  {
  }

  // ---------------------------------------------------------------- reading

  /** `_getTagValueFromMutagenInterface`: the `.text` of the frame under `key`,
      one element as is, several joined with `;` (which fails for timestamps),
      none as `""`; a missing key also reads as `""`. When `.text` is a single
      string its elements are its characters. */
  function Decode(frames: Frames, key: string): (r: Result<Value, Error>)
    ensures frames.Get(key).None? ==> r == Success(Text(""))
    ensures r.Success? ==> r.value.Text? || r.value.Stamp?
    ensures (match frames.Get(key)
      case Some(TextFrame(text)) => r == Success(Text(ValuesToTag(text)))
      case Some(StringFrame(s)) => r == Success(Text(ValuesToTag(Chars(s))))
      case Some(TimeFrame(stamps)) =>
        && (|stamps| == 1 ==> r == Success(Stamp(stamps[0])))
        && (|stamps| == 0 ==> r == Success(Text("")))
        && (|stamps| > 1 ==> r == Failure(NotJoinable(key)))
      case Some(_) => r == Failure(NoTextAttribute(key))
      case None => true)
  {
    match frames.Get(key)
    case None => Success(Text(""))
    case Some(TextFrame(text)) => Success(Text(Collapse(text)))
    case Some(StringFrame(s)) => Success(Text(Collapse(Chars(s))))
    case Some(TimeFrame(stamps)) =>
      if |stamps| == 1 then Success(Stamp(stamps[0]))
      else if |stamps| > 1 then Failure(NotJoinable(key))
      else Success(Text(""))
    case Some(_) => Failure(NoTextAttribute(key))
  }

  /** A text frame whose strings are free of `;` decodes to a value that splits
      back into those strings (unless there are none or only an empty one). */
  lemma DecodeSplitsBack(frames: Frames, key: string, text: seq<string>)
    requires frames.Get(key) == Some(TextFrame(text))
    requires DelimiterFree(text) && text != [] && text != [""]
    ensures Decode(frames, key).Success?
    ensures TagToValues(Decode(frames, key).value.s, "").parts == text
  {
    CollapseSplitsBack(text);
  }

  /** A frame whose `.text` is one `;`-free string of at least two characters
      reads as its characters joined with `;`: it splits back into the
      characters, not into the string. */
  lemma StringFrameSplitsIntoCharacters(frames: Frames, key: string, s: string)
    requires frames.Get(key) == Some(StringFrame(s))
    requires Delimiter !in s && |s| >= 1
    ensures Decode(frames, key).Success? && Decode(frames, key).value.Text?
    ensures TagToValues(Decode(frames, key).value.s, "").parts == Chars(s)
    ensures |s| == 1 ==> Decode(frames, key) == Success(Text(s))
  {
    var cs := Chars(s);
    assert DelimiterFree(cs) by {
      forall i | 0 <= i < |cs| ensures Delimiter !in cs[i] {
        assert cs[i] == [s[i]];
      }
    }
    assert cs != [""] by {
      assert |cs[0]| == 1;
    }
    CollapseSplitsBack(cs);
    if |s| == 1 {
      assert s == [s[0]];
      assert cs == [s];
    }
  }

  /** Lyrics `ab` read as `a;b`, where a one-string text frame `ab` reads as `ab`. */
  lemma LyricsJoinedByCharacter(frames: Frames, frames': Frames, key: string)
    requires frames.Get(key) == Some(StringFrame("ab"))
    requires frames'.Get(key) == Some(TextFrame(["ab"]))
    ensures Decode(frames, key) == Success(Text("a;b"))
    ensures Decode(frames', key) == Success(Text("ab"))
  {
    var cs := Chars("ab");
    assert cs == ["a", "b"];
    assert cs[1..] == ["b"];
    assert Join(cs, Delimiter) == "a" + [Delimiter] + "b" == "a;b";
    assert Decode(frames, key) == Success(Text(ValuesToTag(cs)));
  }

  /** The `.text` of a value: a timestamp's text; anything else has no `.text`. */
  function TextOf(v: Value, key: string): (r: Result<Value, Error>)
    ensures r.Success? <==> v.Stamp?
    ensures r.Success? ==> r.value == Text(v.stamp.text)
    ensures r.Failure? ==> r.error == NoTextAttribute(key)
  {
    match v
    case Stamp(ts) => Success(Text(ts.text))
    case _ => Failure(NoTextAttribute(key))
  }

  /** A number and the total it is out of, as `TRCK` and `TPOS` hold them. */
  datatype NumberOfTotal = NumberOfTotal(number: Value, total: Value)

  /** The `'/' in v` test and split: text with a `/` gives the pieces before the
      first and second `/`; text without one is the number and the total is `""`.
      A timestamp or byte payload cannot be searched; a pair does not contain
      `'/'` and is kept whole. */
  function SplitNumberOfTotal(v: Value, key: string): (r: Result<NumberOfTotal, Error>)
    ensures r.Success? <==> v.Text? || v.Pair?
    ensures r.Failure? ==> r.error == NotSearchable(key)
    ensures r.Success? && !(v.Text? && '/' in v.s) ==> r.value == NumberOfTotal(v, Text(""))
    ensures r.Success? && v.Text? && '/' in v.s ==>
      && r.value.number.Text? && r.value.total.Text?
      && '/' !in r.value.number.s && '/' !in r.value.total.s
      && StartsWith(v.s, r.value.number.s + "/" + r.value.total.s)
      && (var n := |r.value.number.s| + 1 + |r.value.total.s|; n < |v.s| ==> v.s[n] == '/')
  {
    match v
    case Text(s) =>
      if '/' in s then
        SplitFirstTwo(s, '/');
        var parts := Split(s, '/');
        Success(NumberOfTotal(Text(parts[0]), Text(parts[1])))
      else Success(NumberOfTotal(v, Text("")))
    case Pair(_, _) => Success(NumberOfTotal(v, Text("")))
    case _ => Failure(NotSearchable(key))
  }

  /** Writing a number and a total as `number/total` and splitting gives them back. */
  lemma {:induction false} NumberOfTotalRoundTrip(number: string, total: string, key: string)
    requires '/' !in number && '/' !in total
    ensures SplitNumberOfTotal(Text(number + "/" + total), key)
      == Success(NumberOfTotal(Text(number), Text(total)))
  {
    var s := number + "/" + total;
    assert s == number + ['/'] + total;
    assert s[|number|] == '/';
    SplitAfterPiece(number, '/', total);
    SplitWithoutSeparator(total, '/');
  }

  /** `_formatMp3KeyToTagName`: a key containing `TXXX:` anywhere loses its first
      five characters; the name is lower-cased. */
  function FormatKey(k: string): (r: string)
    ensures IsLower(r)
    ensures !Contains(k, UserTextMarker) ==> r == Lower(k)
  {
    LowerIsLower(if Contains(k, UserTextMarker) then k[5..] else k);
    if Contains(k, UserTextMarker) then Lower(k[5..]) else Lower(k)
  }

  /** A user text frame's name is its lower-cased description. */
  lemma FormatUserTextKey(description: string)
    ensures FormatKey(UserTextMarker + description) == Lower(description)
  {
    StartsWithContains(UserTextMarker + description, UserTextMarker);
    assert (UserTextMarker + description)[5..] == description;
  }

  /** The marker is looked for anywhere, but the first five characters are
      what is cut: a COMM key whose description starts with `TXXX:` keeps
      its `TXXX:` and loses `COMM:`. */
  lemma FormatKeyCutsFirstFive()
    ensures FormatKey("COMM:TXXX:x") == "txxx:x"
  {
    assert OccursAt("COMM:TXXX:x", UserTextMarker, 5);
  }

  /** The frame keys that remain after `_removeUnneededTagKeysFromTagKeysList`
      succeeds: no picture key, no ignored key, native order kept. */
  predicate IsRelevant(k: string) {
    !Contains(k, PictureMarker) && k !in IgnoreKeys
  }

  /** A leftover key: relevant and not read by a fixed field. */
  predicate IsOtherKey(k: string) {
    IsRelevant(k) && k !in FixedKeys
  }

  /** `_removeUnneededTagKeysFromTagKeysList`: drops the picture keys, then
      removes every ignored key with `list.remove`, which raises when one is
      missing. */
  function RelevantKeys(frames: Frames): (r: Result<seq<string>, Error>)
    ensures r.Success? <==> forall k | k in IgnoreKeys :: k in frames.keys
    ensures r.Success? ==> r.value == Filter(frames.keys, IsRelevant)
    ensures r.Failure? ==> exists i | 0 <= i < |IgnoreKeys| ::
      r.error == KeyNotInList(IgnoreKeys[i]) && IgnoreKeys[i] !in frames.keys
        && forall j | 0 <= j < i :: IgnoreKeys[j] in frames.keys
  {
    IgnoreKeysDistinct();
    IgnoreKeysAreNotPictures();
    match FilterThenRemove(frames.keys, k => !Contains(k, PictureMarker), IgnoreKeys, IsRelevant)
    case Success(rest) => Success(rest)
    case Failure(k) => Failure(KeyNotInList(k))
  }

  /** The leftover keys, in native order. */
  function OtherKeys(relevant: seq<string>): (r: seq<string>)
    ensures forall k :: k in r <==> k in relevant && k !in FixedKeys
  {
    Filter(relevant, k => k !in FixedKeys)
  }

  /** The leftover keys of a table are the keys passing the combined test. */
  lemma OtherKeysOfTable(frames: Frames)
    requires RelevantKeys(frames).Success?
    ensures OtherKeys(RelevantKeys(frames).value) == Filter(frames.keys, IsOtherKey)
  {
    FilterTwice(frames.keys, IsRelevant, k => k !in FixedKeys, IsOtherKey);
  }

  /** No later key of `keys` has the same formatted name as `keys[i]`. */
  predicate LastWithName(keys: seq<string>, i: int)
    requires 0 <= i < |keys|
  {
    forall j | i < j < |keys| :: FormatKey(keys[j]) != FormatKey(keys[i])
  }

  /** A key that is the last with its name stays so without the final key, and
      the final key has another name. */
  lemma LastWithNameInFront(keys: seq<string>, i: int)
    requires 0 <= i < |keys| - 1 && LastWithName(keys, i)
    ensures LastWithName(keys[..|keys| - 1], i)
    ensures FormatKey(keys[|keys| - 1]) != FormatKey(keys[i])
  {
    var front := keys[..|keys| - 1];
    forall j | i < j < |front| ensures FormatKey(front[j]) != FormatKey(front[i]) {
      assert front[j] == keys[j] && front[i] == keys[i];
    }
  }

  /** The `otherTags` loop: each key's value is stored under its formatted name,
      so when two keys format to the same name the later one wins. Fails at the
      first key whose value cannot be read. */
  function CollectOther(frames: Frames, keys: seq<string>): (r: Result<map<string, Value>, Error>)
    ensures r.Success? <==> forall k | k in keys :: Decode(frames, k).Success?
    ensures r.Success? ==> forall n :: n in r.value <==> exists k | k in keys :: FormatKey(k) == n
    ensures r.Success? ==> forall i | 0 <= i < |keys| && LastWithName(keys, i) ::
      r.value[FormatKey(keys[i])] == Decode(frames, keys[i]).value
    decreases |keys|
  {
    if |keys| == 0 then Success(map[])
    else
      var front := keys[..|keys| - 1];
      var last := keys[|keys| - 1];
      assert forall k :: k in keys <==> k in front || k == last by {
        assert keys == front + [last];
      }
      var m :- CollectOther(frames, front);
      var v :- Decode(frames, last);
      assert forall i | 0 <= i < |keys| :: Decode(frames, keys[i]).Success? by {
        forall i | 0 <= i < |keys| ensures Decode(frames, keys[i]).Success? {
          assert keys[i] in keys;
        }
      }
      CollectOtherStep(frames, keys, front, m, v);
      Success(m[FormatKey(last) := v])
  }

  /** Storing the last key's value over the map collected from the keys before
      it keeps the value of every key that is the last of its name. */
  lemma CollectOtherStep(frames: Frames, keys: seq<string>, front: seq<string>, m: map<string, Value>, v: Value)
    requires |keys| > 0 && front == keys[..|keys| - 1]
    requires forall i | 0 <= i < |keys| :: Decode(frames, keys[i]).Success?
    requires forall i | 0 <= i < |front| && LastWithName(front, i) ::
      FormatKey(front[i]) in m && m[FormatKey(front[i])] == Decode(frames, front[i]).value
    requires Decode(frames, keys[|keys| - 1]) == Success(v)
    ensures var r := m[FormatKey(keys[|keys| - 1]) := v];
      forall i | 0 <= i < |keys| && LastWithName(keys, i) ::
        FormatKey(keys[i]) in r && r[FormatKey(keys[i])] == Decode(frames, keys[i]).value
  {
    var r := m[FormatKey(keys[|keys| - 1]) := v];
    forall i | 0 <= i < |keys| && LastWithName(keys, i)
      ensures FormatKey(keys[i]) in r && r[FormatKey(keys[i])] == Decode(frames, keys[i]).value
    {
      if i < |keys| - 1 {
        LastWithNameInFront(keys, i);
        assert front[i] == keys[i];
      }
    }
  }

  /** Two tables that agree on `keys` collect the same leftover map. */
  lemma {:induction false} CollectOtherAgrees(frames: Frames, frames': Frames, keys: seq<string>)
    requires forall k | k in keys :: frames.Get(k) == frames'.Get(k)
    ensures CollectOther(frames, keys) == CollectOther(frames', keys)
    decreases |keys|
  {
    if |keys| > 0 {
      var front := keys[..|keys| - 1];
      assert forall k | k in front :: k in keys;
      CollectOtherAgrees(frames, frames', front);
      DecodeAgrees(frames, frames', keys[|keys| - 1]);
    }
  }

  /** The plain fields of `fields`, each read in turn; fails at the first field
      whose value cannot be read. */
  function ReadFields(frames: Frames, fields: seq<Field>): (r: Result<map<Field, Value>, Error>)
    ensures r.Success? <==> forall f | f in fields :: Decode(frames, KeyOf(f)).Success?
    ensures r.Success? ==> forall f :: f in r.value <==> f in fields
    ensures r.Success? ==> forall f | f in fields :: Decode(frames, KeyOf(f)) == Success(r.value[f])
    decreases |fields|
  {
    if |fields| == 0 then Success(map[])
    else
      assert forall f :: f in fields <==> f == fields[0] || f in fields[1..] by {
        assert fields == [fields[0]] + fields[1..];
      }
      var v :- Decode(frames, KeyOf(fields[0]));
      var m :- ReadFields(frames, fields[1..]);
      Success(m[fields[0] := v])
  }

  /** Two tables that agree on the keys of `fields` read them alike. */
  lemma {:induction false} ReadFieldsAgree(frames: Frames, frames': Frames, fields: seq<Field>)
    requires forall f | f in fields :: frames.Get(KeyOf(f)) == frames'.Get(KeyOf(f))
    ensures ReadFields(frames, fields) == ReadFields(frames', fields)
    decreases |fields|
  {
    if |fields| > 0 {
      assert forall f | f in fields[1..] :: f in fields;
      ReadFieldsAgree(frames, frames', fields[1..]);
      DecodeAgrees(frames, frames', KeyOf(fields[0]));
    }
  }

  /** A key holding the same frame in two tables reads alike in both. */
  lemma DecodeAgrees(frames: Frames, frames': Frames, key: string)
    requires frames.Get(key) == frames'.Get(key)
    ensures Decode(frames, key) == Decode(frames', key)
  {
  }

  /** What the fixed-field reads produce: the plain fields, the date text, and
      the track and disc splits. */
  datatype Fixed = Fixed(plain: map<Field, Value>, date: Value, track: NumberOfTotal, disc: NumberOfTotal) {

    /** The value the record's field `f` takes. */
    function Get(f: Field): Value {
      match f
      case Date => date
      case TrackNumber => track.number
      case TotalTracks => track.total
      case DiscNumber => disc.number
      case TotalDiscs => disc.total
      case _ => if f in plain then plain[f] else Text("")
    }
  }

  /** A record whose fields are those of `fixed` holds its date and splits. */
  lemma FixedFieldsOfRecord(fixed: Fixed, r: Tags)
    requires forall f :: r.Get(f) == fixed.Get(f)
    ensures r.date == fixed.date
    ensures NumberOfTotal(r.trackNumber, r.totalTracks) == fixed.track
    ensures NumberOfTotal(r.discNumber, r.totalDiscs) == fixed.disc
  {
    assert r.Get(Date) == fixed.Get(Date);
    assert r.Get(TrackNumber) == fixed.Get(TrackNumber) && r.Get(TotalTracks) == fixed.Get(TotalTracks);
    assert r.Get(DiscNumber) == fixed.Get(DiscNumber) && r.Get(TotalDiscs) == fixed.Get(TotalDiscs);
  }

  /** Every fixed-field read succeeds: each plain field decodes, TDRC holds one
      timestamp, and TRCK and TPOS decode to text. */
  predicate FixedReadable(frames: Frames) {
    && (forall f | f in LeadingFields || f in TrailingFields :: Decode(frames, KeyOf(f)).Success?)
    && Decode(frames, KeyOf(Date)).Success? && Decode(frames, KeyOf(Date)).value.Stamp?
    && Decode(frames, KeyOf(TrackNumber)).Success? && Decode(frames, KeyOf(TrackNumber)).value.Text?
    && Decode(frames, KeyOf(DiscNumber)).Success? && Decode(frames, KeyOf(DiscNumber)).value.Text?
  }

  /** Lines reading the fixed fields of `getTags`: the plain fields in reading
      order, the `.text` of TDRC, the TRCK and TPOS values, their splits, then
      the rest of the plain fields. Fails at the first read that raises. */
  function ReadFixed(frames: Frames): (r: Result<Fixed, Error>)
    ensures r.Success? <==> FixedReadable(frames)
    ensures r.Success? ==> forall f | f in LeadingFields || f in TrailingFields ::
      f in r.value.plain && Decode(frames, KeyOf(f)) == Success(r.value.plain[f])
    ensures r.Success? ==>
      && Decode(frames, KeyOf(Date)).Success? && Decode(frames, KeyOf(Date)).value.Stamp?
      && r.value.date == Text(Decode(frames, KeyOf(Date)).value.stamp.text)
    ensures r.Success? ==>
      && Decode(frames, KeyOf(TrackNumber)).Success?
      && SplitNumberOfTotal(Decode(frames, KeyOf(TrackNumber)).value, KeyOf(TrackNumber)) == Success(r.value.track)
    ensures r.Success? ==>
      && Decode(frames, KeyOf(DiscNumber)).Success?
      && SplitNumberOfTotal(Decode(frames, KeyOf(DiscNumber)).value, KeyOf(DiscNumber)) == Success(r.value.disc)
  {
    var leading :- ReadFields(frames, LeadingFields);
    var dateValue :- Decode(frames, KeyOf(Date));
    var date :- TextOf(dateValue, KeyOf(Date));
    var trackValue :- Decode(frames, KeyOf(TrackNumber));
    var discValue :- Decode(frames, KeyOf(DiscNumber));
    var track :- SplitNumberOfTotal(trackValue, KeyOf(TrackNumber));
    var disc :- SplitNumberOfTotal(discValue, KeyOf(DiscNumber));
    var trailing :- ReadFields(frames, TrailingFields);
    var plain := leading + trailing;
    assert forall f | f in LeadingFields || f in TrailingFields ::
      f in plain && Decode(frames, KeyOf(f)) == Success(plain[f]) by {
      forall f | f in LeadingFields || f in TrailingFields
        ensures f in plain && Decode(frames, KeyOf(f)) == Success(plain[f])
      {
        if f in LeadingFields {
          LeadingAreNotTrailing(f);
        }
      }
    }
    Success(Fixed(plain, date, track, disc))
  }

  /** Lines building `otherTags` in `getTags`: the leftover keys and their values. */
  function ReadOther(frames: Frames): (r: Result<map<string, Value>, Error>)
    ensures r.Success? ==> RelevantKeys(frames).Success?
    ensures RelevantKeys(frames).Success? ==> r == CollectOther(frames, Filter(frames.keys, IsOtherKey))
  {
    var relevant :- RelevantKeys(frames);
    OtherKeysOfTable(frames);
    CollectOther(frames, OtherKeys(relevant))
  }

  /** `getTags` on a loaded handle: the fixed fields, then `otherTags`. */
  function ReadTags(frames: Frames): (r: Result<Tags, Error>)
    ensures r.Success? <==> ReadFixed(frames).Success? && ReadOther(frames).Success?
    ensures r.Success? ==> forall f :: r.value.Get(f) == ReadFixed(frames).value.Get(f)
    ensures r.Success? ==> r.value.otherTags == ReadOther(frames).value
  {
    var fixed :- ReadFixed(frames);
    var otherTags :- ReadOther(frames);
    Success(Build(fixed.Get, otherTags))
  }

  /** A plain field of a successful read holds the decoded value of its key. */
  lemma ReadPlainField(frames: Frames, f: Field)
    requires ReadTags(frames).Success?
    requires IsPlain(f)
    ensures Decode(frames, KeyOf(f)) == Success(ReadTags(frames).value.Get(f))
  {
    PlainFieldIsRead(f);
  }

  /** The date of a successful read is the text of the timestamp under TDRC. */
  lemma ReadDate(frames: Frames)
    requires ReadTags(frames).Success?
    ensures Decode(frames, KeyOf(Date)).Success? && Decode(frames, KeyOf(Date)).value.Stamp?
    ensures ReadTags(frames).value.date == Text(Decode(frames, KeyOf(Date)).value.stamp.text)
  {
    FixedFieldsOfRecord(ReadFixed(frames).value, ReadTags(frames).value);
  }

  /** Track and disc number and total of a successful read are the splits of the
      values under TRCK and TPOS. */
  lemma ReadNumbers(frames: Frames)
    requires ReadTags(frames).Success?
    ensures var r := ReadTags(frames).value;
      && Decode(frames, KeyOf(TrackNumber)).Success? && Decode(frames, KeyOf(DiscNumber)).Success?
      && SplitNumberOfTotal(Decode(frames, KeyOf(TrackNumber)).value, KeyOf(TrackNumber))
        == Success(NumberOfTotal(r.trackNumber, r.totalTracks))
      && SplitNumberOfTotal(Decode(frames, KeyOf(DiscNumber)).value, KeyOf(DiscNumber))
        == Success(NumberOfTotal(r.discNumber, r.totalDiscs))
  {
    FixedFieldsOfRecord(ReadFixed(frames).value, ReadTags(frames).value);
  }

  /** `otherTags` of a successful read collects the leftover keys in native order. */
  lemma ReadOtherTags(frames: Frames)
    requires ReadTags(frames).Success?
    ensures RelevantKeys(frames).Success?
    ensures CollectOther(frames, Filter(frames.keys, IsOtherKey)) == Success(ReadTags(frames).value.otherTags)
  {
  }

  /** `getTags`: reads through the loaded handle; a translator that has loaded
      nothing subscripts `None` and raises. */
  function GetTags(h: Handler): (r: Result<Tags, Error>)
    ensures h.interface.None? ==> r == Failure(NoInterfaceLoaded)
    ensures h.interface.Some? ==> r == ReadTags(h.interface.value.frames)
  {
    match h.interface
    case None => Failure(NoInterfaceLoaded)
    case Some(file) => ReadTags(file.frames)
  }

  /** A new translator cannot read tags before something has loaded the file. */
  lemma FreshHandlerCannotRead()
    ensures GetTags(NewHandler()) == Failure(NoInterfaceLoaded)
  {
  }

  /** A file without any frame fails: its missing TDRC reads as `""`, which has
      no `.text`. */
  lemma BlankFileFails()
    ensures ReadTags(EmptyTable()) == Failure(NoTextAttribute(KeyOf(Date)))
  {
    var t: Frames := EmptyTable();
    assert ReadFields(t, LeadingFields).Success?;
    assert Decode(t, KeyOf(Date)) == Success(Text(""));
  }

  /** A file lacking any one of the ignored keys cannot be read. */
  lemma MissingIgnoredKeyFails(frames: Frames, k: string)
    requires k in IgnoreKeys && k !in frames.keys
    ensures ReadTags(frames).Failure?
    ensures ReadFixed(frames).Success? ==>
      exists k' | k' in IgnoreKeys :: ReadTags(frames).error == KeyNotInList(k') && k' !in frames.keys
  {
  }

  /** After a successful read every key of the file is accounted for exactly once:
      a picture, an ignored key, a key a fixed field reads, or a leftover whose
      formatted name is in `otherTags`. */
  lemma KeysClassified(frames: Frames, k: string)
    requires ReadTags(frames).Success?
    requires k in frames.keys
    ensures Contains(k, PictureMarker) || k in IgnoreKeys || IsFieldKey(k)
      || FormatKey(k) in ReadTags(frames).value.otherTags
    ensures IsFieldKey(k) ==> !Contains(k, PictureMarker) && k !in IgnoreKeys
    ensures k in IgnoreKeys ==> !Contains(k, PictureMarker)
  {
    FixedKeysAreFieldKeys(k);
    FixedKeysAreNotIgnored();
    IgnoreKeysAreNotPictures();
    ReadOtherTags(frames);
    if k in FixedKeys {
      FixedKeyIsNotPicture(k);
    }
    if IsOtherKey(k) {
      assert k in Filter(frames.keys, IsOtherKey);
    }
  }

  // ---------------------------------------------------------------- writing

  /** Dict stores of a one-string text frame under each of `keys` in turn. */
  function StoreTexts(t: Frames, keys: seq<string>, texts: seq<string>): (r: Frames)
    requires |keys| == |texts| && Distinct(keys)
    ensures forall i | 0 <= i < |keys| :: r.Get(keys[i]) == Some(TextFrame([texts[i]]))
    ensures forall k | k !in keys :: r.Get(k) == t.Get(k)
    ensures r.keys == AppendNew(t.keys, keys)
  {
    var frames := seq(|texts|, i requires 0 <= i < |texts| => TextFrame([texts[i]]));
    PutAll(t, keys, frames, false)
  }

  /** Fields whose keys hold one-string text frames of their texts decode to
      those texts. */
  lemma StoredFieldsDecode(frames: Frames, fields: seq<Field>, keys: seq<string>, tags: Tags, texts: seq<string>)
    requires |fields| == |keys| == |texts|
    requires forall i | 0 <= i < |fields| :: keys[i] == KeyOf(fields[i])
    requires forall i | 0 <= i < |fields| :: frames.Get(keys[i]) == Some(TextFrame([texts[i]]))
    requires forall i | 0 <= i < |fields| :: tags.Get(fields[i]) == Text(texts[i])
    ensures forall f | f in fields :: Decode(frames, KeyOf(f)) == Success(tags.Get(f))
  {
    forall f | f in fields ensures Decode(frames, KeyOf(f)) == Success(tags.Get(f)) {
      var i :| 0 <= i < |fields| && fields[i] == f;
      assert frames.Get(KeyOf(f)) == Some(TextFrame([texts[i]]));
    }
  }

  /** The five dict stores of `setTags`, given the texts to store. */
  function WriteFrames(t: Frames, texts: seq<string>): (r: Frames)
    requires |texts| == |WrittenKeys|
    ensures forall i | 0 <= i < |WrittenKeys| :: r.Get(WrittenKeys[i]) == Some(TextFrame([texts[i]]))
    ensures forall k | k !in WrittenKeys :: r.Get(k) == t.Get(k)
    ensures r.keys == AppendNew(t.keys, WrittenKeys)
  {
    WrittenKeysDistinct();
    StoreTexts(t, WrittenKeys, texts)
  }

  /** After the stores, each written field's key decodes to the field's text. */
  lemma WrittenFieldsDecode(t: Frames, tags: Tags, texts: seq<string>)
    requires |texts| == |WriteOrder|
    requires forall i | 0 <= i < |WriteOrder| :: tags.Get(WriteOrder[i]) == Text(texts[i])
    ensures forall f | f in WriteOrder :: Decode(WriteFrames(t, texts), KeyOf(f)) == Success(tags.Get(f))
  {
    WrittenKeysFollowWriteOrder();
    StoredFieldsDecode(WriteFrames(t, texts), WriteOrder, WrittenKeys, tags, texts);
  }

  /** `setTags`: assigns a one-string TXXX frame for each of the five written
      fields, as dict stores (an existing key keeps its place, a new one goes
      last). A value that is not text cannot be stored. */
  function SetTags(file: Mp3File, tags: Tags): (r: Result<Mp3File, Error>)
    ensures r.Success? <==> forall f | f in WriteOrder :: tags.Get(f).Text?
    ensures r.Success? ==> forall f | f in WriteOrder ::
      Decode(r.value.frames, KeyOf(f)) == Success(tags.Get(f))
    ensures r.Success? ==> forall k | k !in WrittenKeys ::
      r.value.frames.Get(k) == file.frames.Get(k)
    ensures r.Success? ==> r.value.frames.keys == AppendNew(file.frames.keys, WrittenKeys)
    ensures r.Success? ==> r.value.info == file.info
  {
    var texts :- TextsToWrite(tags, WriteOrder, KeyOf);
    WrittenFieldsDecode(file.frames, tags, texts);
    Success(file.(frames := WriteFrames(file.frames, texts)))
  }

  /** Fixed-field reads that agree on the date and splits and differ only in
      the written plain fields give records that differ only there. */
  lemma FixedAfterWriting(fixed: Fixed, fixed': Fixed, tags: Tags)
    requires fixed'.date == fixed.date && fixed'.track == fixed.track && fixed'.disc == fixed.disc
    requires forall f | f in LeadingFields || f in TrailingFields ::
      f in fixed.plain && f in fixed'.plain
        && fixed'.plain[f] == if f in WriteOrder then tags.Get(f) else fixed.plain[f]
    ensures forall f :: fixed'.Get(f) == if f in WriteOrder then tags.Get(f) else fixed.Get(f)
  {
    WrittenFieldsAreTrailing();
    forall f ensures fixed'.Get(f) == if f in WriteOrder then tags.Get(f) else fixed.Get(f) {
      if IsPlain(f) {
        PlainFieldIsRead(f);
      }
    }
  }

  /** None of the keys read before the trailing fields is written. */
  lemma EarlyKeysUnwritten()
    ensures forall f | f in LeadingFields :: KeyOf(f) !in WrittenKeys
    ensures KeyOf(Date) !in WrittenKeys && KeyOf(TrackNumber) !in WrittenKeys && KeyOf(DiscNumber) !in WrittenKeys
  {
  }

  /** A table that differs from a readable one only in the written keys, which
      decode, is readable too. */
  lemma ReadableAfterWriting(t: Frames, t': Frames, tags: Tags)
    requires FixedReadable(t)
    requires forall k | k !in WrittenKeys :: t'.Get(k) == t.Get(k)
    requires forall f | f in WriteOrder :: Decode(t', KeyOf(f)) == Success(tags.Get(f))
    ensures FixedReadable(t')
    ensures Decode(t', KeyOf(Date)) == Decode(t, KeyOf(Date))
    ensures Decode(t', KeyOf(TrackNumber)) == Decode(t, KeyOf(TrackNumber))
    ensures Decode(t', KeyOf(DiscNumber)) == Decode(t, KeyOf(DiscNumber))
    ensures forall f | f !in WriteOrder :: Decode(t', KeyOf(f)) == Decode(t, KeyOf(f))
  {
    EarlyKeysUnwritten();
    forall f | f !in WriteOrder ensures Decode(t', KeyOf(f)) == Decode(t, KeyOf(f)) {
      UnwrittenFieldKey(f);
    }
  }

  /** Such a table reads the same date and splits and the written values in
      the written plain fields. */
  lemma ReadFixedAfterWriting(t: Frames, t': Frames, tags: Tags)
    requires ReadFixed(t).Success?
    requires forall k | k !in WrittenKeys :: t'.Get(k) == t.Get(k)
    requires forall f | f in WriteOrder :: Decode(t', KeyOf(f)) == Success(tags.Get(f))
    ensures var after := ReadFixed(t');
      && after.Success?
      && after.value.date == ReadFixed(t).value.date
      && after.value.track == ReadFixed(t).value.track
      && after.value.disc == ReadFixed(t).value.disc
      && forall f | f in LeadingFields || f in TrailingFields ::
           f in after.value.plain
             && after.value.plain[f] == if f in WriteOrder then tags.Get(f) else ReadFixed(t).value.plain[f]
  {
    ReadableAfterWriting(t, t', tags);
  }

  /** The fixed fields read from the table `setTags` produced, where the original
      could be read: the written values in the five written fields, every other
      field as before. */
  lemma FixedAfterSet(file: Mp3File, tags: Tags)
    requires ReadFixed(file.frames).Success?
    requires SetTags(file, tags).Success?
    ensures var after := ReadFixed(SetTags(file, tags).value.frames);
      && after.Success?
      && forall f :: after.value.Get(f) ==
           if f in WriteOrder then tags.Get(f) else ReadFixed(file.frames).value.Get(f)
  {
    ReadFixedAfterWriting(file.frames, SetTags(file, tags).value.frames, tags);
    FixedAfterWriting(ReadFixed(file.frames).value, ReadFixed(SetTags(file, tags).value.frames).value, tags);
  }

  /** The leftover keys are the same after `setTags`: every written key is read
      by a fixed field. */
  lemma OtherAfterSet(file: Mp3File, tags: Tags)
    requires ReadOther(file.frames).Success?
    requires SetTags(file, tags).Success?
    ensures ReadOther(SetTags(file, tags).value.frames) == ReadOther(file.frames)
  {
    var t := file.frames;
    var t' := SetTags(file, tags).value.frames;
    assert RelevantKeys(t').Success?;
    WrittenKeysAreFixed();
    FilterAppendNew(t.keys, WrittenKeys, IsOtherKey);
    CollectOtherAgrees(t, t', Filter(t.keys, IsOtherKey));
  }

  /** Reading the table `setTags` produced (what a translator sees once it
      reloads the file), where the original could be read, succeeds with the
      written values in the five written fields and every other field and
      `otherTags` as before. */
  lemma SetThenRead(file: Mp3File, tags: Tags)
    requires ReadTags(file.frames).Success?
    requires SetTags(file, tags).Success?
    ensures var after := ReadTags(SetTags(file, tags).value.frames);
      && after.Success?
      && (forall f :: after.value.Get(f) ==
            if f in WriteOrder then tags.Get(f) else ReadTags(file.frames).value.Get(f))
      && after.value.otherTags == ReadTags(file.frames).value.otherTags
  {
    FixedAfterSet(file, tags);
    OtherAfterSet(file, tags);
  }

  /** `setTags` as the translator runs it: the write goes through a handle of its
      own, so the translator's handle is left as it was. */
  function SetTagsOnHandle(h: Handler, file: Mp3File, tags: Tags): (r: Outcome<Mp3File>)
    ensures r.handler == h
    ensures r.result.Success? <==> forall f | f in WriteOrder :: tags.Get(f).Text?
    ensures r.result.Success? ==> forall f | f in WriteOrder ::
      Decode(r.result.value.frames, KeyOf(f)) == Success(tags.Get(f))
  {
    Outcome(h, SetTags(file, tags))
  }

  /** After a successful `setTags` through a translator whose handle holds the
      file, `getTags` still reads the frames loaded before the write: a written
      field whose text changed reads its old value. */
  lemma StaleReadAfterSet(file: Mp3File, tags: Tags, f: Field)
    requires ReadTags(file.frames).Success?
    requires SetTags(file, tags).Success?
    requires f in WriteOrder && ReadTags(file.frames).value.Get(f) != tags.Get(f)
    ensures var h := Handler(Some(file));
      var r := SetTagsOnHandle(h, file, tags);
      && r.result.Success?
      && GetTags(r.handler) == GetTags(h)
      && GetTags(r.handler).value.Get(f) != tags.Get(f)
    ensures ReadTags(SetTags(file, tags).value.frames).Success?
    ensures ReadTags(SetTags(file, tags).value.frames).value.Get(f) == tags.Get(f)
  {
    WrittenFieldReads(file, tags, f);
  }

  /** One written field reads its written value from the written frames. */
  lemma WrittenFieldReads(file: Mp3File, tags: Tags, f: Field)
    requires ReadTags(file.frames).Success?
    requires SetTags(file, tags).Success?
    requires f in WriteOrder
    ensures ReadTags(SetTags(file, tags).value.frames).Success?
    ensures ReadTags(SetTags(file, tags).value.frames).value.Get(f) == tags.Get(f)
  {
    SetThenRead(file, tags);
  }

  /** A translator that never loaded a handle still has none after `setTags`,
      so reading back fails. */
  lemma ReadAfterSetOnNewHandler(file: Mp3File, tags: Tags)
    ensures GetTags(SetTagsOnHandle(NewHandler(), file, tags).handler) == Failure(NoInterfaceLoaded)
  {
  }

  /** `setTags` as intended: after the write the translator's handle holds the
      written file, so the next `getTags` reads what was written. On failure the
      handle is unchanged. */
  function SetTagsAndReload(h: Handler, file: Mp3File, tags: Tags): (r: Outcome<Mp3File>)
    ensures r.result == SetTags(file, tags)
    ensures r.result.Success? ==> r.handler == Handler(Some(r.result.value))
    ensures r.result.Failure? ==> r.handler == h
  {
    match SetTags(file, tags)
    case Success(written) => Outcome(Handler(Some(written)), Success(written))
    case Failure(e) => Outcome(h, Failure(e))
  }

  /** With the reload, reading through the translator right after `setTags`
      gives the written values in the five written fields and leaves every
      other field and `otherTags` as before, whatever the handle held. */
  lemma ReloadedReadGivesWritten(h: Handler, file: Mp3File, tags: Tags)
    requires ReadTags(file.frames).Success?
    requires SetTags(file, tags).Success?
    ensures var after := GetTags(SetTagsAndReload(h, file, tags).handler);
      && after.Success?
      && (forall f :: after.value.Get(f) ==
            if f in WriteOrder then tags.Get(f) else ReadTags(file.frames).value.Get(f))
      && after.value.otherTags == ReadTags(file.frames).value.otherTags
  {
    SetThenRead(file, tags);
  }

  // ---------------------------------------------------------------- properties

  /** The display name of a bit-rate mode; `""` when the library does not know it. */
  function ModeName(m: BitrateMode): (r: string)
    ensures r == "" <==> m == Unknown
  {
    match m
    case CBR => "CBR"
    case VBR => "VBR"
    case ABR => "ABR"
    case Unknown => ""
  }

  /** Distinct known modes have distinct names. */
  lemma ModeNameInjective(m: BitrateMode, n: BitrateMode)
    requires ModeName(m) == ModeName(n)
    ensures m == n
  {
  }

  /** `getProperties`: loads the file into the handle, then builds the record;
      the replay-gain values are read like tags, in order, and can fail. */
  function GetProperties(file: Mp3File, stat: FileStat): (r: Outcome<Properties>)
    ensures r.handler == Handler(Some(file))
    ensures r.result.Success? <==> forall k | k in ReplayGainKeys :: Decode(file.frames, k).Success?
    ensures r.result.Success? ==>
      && r.result.value.format == "MP3"
      && r.result.value.bitDepth == None
      && r.result.value.codec == ""
      && r.result.value.bitRateMode == ModeName(file.info.bitrateMode)
      && r.result.value.encoder == file.info.encoderInfo + " (" + file.info.encoderSettings + ")"
      && r.result.value.numChannels == file.info.channels
      && r.result.value.sampleRate == file.info.sampleRate
      && r.result.value.fileSize == stat.size
      && r.result.value.fileDateModified == stat.dateModified
    ensures r.result.Success? ==>
      && Decode(file.frames, ReplayGainKeys[0]) == Success(r.result.value.replayGain.albumGain)
      && Decode(file.frames, ReplayGainKeys[1]) == Success(r.result.value.replayGain.albumPeak)
      && Decode(file.frames, ReplayGainKeys[2]) == Success(r.result.value.replayGain.trackGain)
      && Decode(file.frames, ReplayGainKeys[3]) == Success(r.result.value.replayGain.trackPeak)
  {
    var h := Handler(Some(file));
    var t := file.frames;
    var gain := (
      var albumGain :- Decode(t, ReplayGainKeys[0]);
      var albumPeak :- Decode(t, ReplayGainKeys[1]);
      var trackGain :- Decode(t, ReplayGainKeys[2]);
      var trackPeak :- Decode(t, ReplayGainKeys[3]);
      Success(ReplayGain(albumGain, albumPeak, trackGain, trackPeak)));
    assert forall k | k in ReplayGainKeys :: (k == ReplayGainKeys[0] || k == ReplayGainKeys[1]
      || k == ReplayGainKeys[2] || k == ReplayGainKeys[3]);
    match gain
    case Failure(e) => Outcome(h, Failure(e))
    case Success(replayGain) =>
      Outcome(h, Success(Properties(
        stat.size, stat.dateModified, "MP3", None, file.info.channels, file.info.sampleRate,
        file.info.encoderInfo + " (" + file.info.encoderSettings + ")",
        ModeName(file.info.bitrateMode), "", replayGain)))
  }

  /** After `getProperties` the translator reads the tags of the file it loaded. */
  lemma PropertiesLoadTheFile(file: Mp3File, stat: FileStat)
    ensures GetTags(GetProperties(file, stat).handler) == ReadTags(file.frames)
  {
  }

  /** The keys of picture frames, in native order. */
  function PictureKeys(frames: Frames): (r: seq<string>)
    ensures forall k :: k in r <==> k in frames.keys && Contains(k, PictureMarker)
  {
    Filter(frames.keys, k => Contains(k, PictureMarker))
  }

  /** `getEmbeddedArtwork`: loads the file into the handle and returns the
      `.data` of every picture frame in native order; a picture key whose frame
      has no `.data` raises. */
  method GetEmbeddedArtwork(file: Mp3File) returns (r: Outcome<seq<Bytes>>)
    ensures r.handler == Handler(Some(file))
    ensures r.result.Success? <==> forall k | k in PictureKeys(file.frames) :: file.frames.Get(k).value.DataFrame?
    ensures r.result.Failure? ==> exists k | k in PictureKeys(file.frames) ::
      r.result.error == NoDataAttribute(k) && !file.frames.Get(k).value.DataFrame?
    ensures r.result.Success? ==> |r.result.value| == |PictureKeys(file.frames)|
    ensures r.result.Success? ==> forall i | 0 <= i < |r.result.value| ::
      file.frames.Get(PictureKeys(file.frames)[i]) == Some(DataFrame(r.result.value[i]))
  {
    var keys := PictureKeys(file.frames);
    var artworks: seq<Bytes> := [];
    var i := 0;
    while i < |keys|
      invariant 0 <= i <= |keys|
      invariant |artworks| == i
      invariant forall j | 0 <= j < i :: file.frames.Get(keys[j]) == Some(DataFrame(artworks[j]))
    {
      assert keys[i] in keys;
      var frame := file.frames.Get(keys[i]).value;
      if !frame.DataFrame? {
        return Outcome(Handler(Some(file)), Failure(NoDataAttribute(keys[i])));
      }
      artworks := artworks + [frame.data];
      i := i + 1;
    }
    assert forall k | k in keys :: file.frames.Get(k).value.DataFrame? by {
      forall k | k in keys ensures file.frames.Get(k).value.DataFrame? {
        var j :| 0 <= j < |keys| && keys[j] == k;
      }
    }
    return Outcome(Handler(Some(file)), Success(artworks));
  }
}
