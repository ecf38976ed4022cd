/** The M4A translator (`mlu/tags/audiofmt/m4a.py`): MP4 atoms, keyed by atom
    name, mapped onto the canonical records. Standard atoms hold text or integer
    pairs; the custom fields live in freeform atoms (`----:com.apple.iTunes:NAME`)
    whose values are byte payloads, decoded as UTF-8 before use. The translator
    has no write path. */
module M4a {
  import opened Results
  import opened Strings
  import opened Codec
  import opened NativeTables
  import opened Schema

  /** What the library stores under one atom name: a list of values, or a bare
      boolean for the flag atoms (`cpil`, `pgap`, `pcst`). */
  datatype Atom =
    | Listed(values: seq<Value>)
    | Flag(on: bool)

  /** The atom table: each atom name maps to what is stored under it. */
  type Atoms = KeyTable<Atom>

  /** The stream information the properties read. */
  datatype StreamInfo = StreamInfo(codecDescription: string, bitsPerSample: int, channels: int, sampleRate: int)

  /** An M4A file as the tag library presents it, loaded when the translator is built. */
  datatype M4aFile = M4aFile(atoms: Atoms, info: StreamInfo)

  // ---------------------------------------------------------------- keys

  /** Freeform atoms are recognised by this substring of their name. */
  const FreeformMarker: string := "----:com.apple.iTunes:"

  /** The atom holding the cover art. */
  const CoverKey: string := "covr"

  /** The atom each fixed field reads. Track number and total share `trkn`,
      disc number and total share `disk`. */
  function KeyOf(f: Field): string {
    match f
    case Title => "\U{A9}nam"
    case Artist => "\U{A9}ART"
    case Album => "\U{A9}alb"
    case AlbumArtist => "aART"
    case Composer => "\U{A9}wrt"
    case Date => "\U{A9}day"
    case Genre => "\U{A9}gen"
    case TrackNumber => "trkn"
    case TotalTracks => "trkn"
    case DiscNumber => "disk"
    case TotalDiscs => "disk"
    case Bpm => "----:com.apple.iTunes:BPM"
    case Key => "----:com.apple.iTunes:key"
    case Lyrics => "\U{A9}lyr"
    case Comment => "\U{A9}cmt"
    case DateAdded => "----:com.apple.iTunes:DATE_ADDED"
    case DateAllPlays => "----:com.apple.iTunes:DATE_ALL_PLAYS"
    case DateLastPlayed => "----:com.apple.iTunes:DATE_LAST_PLAYED"
    case PlayCount => "----:com.apple.iTunes:PLAY_COUNT"
    case Votes => "----:com.apple.iTunes:VOTES"
    case Rating => "----:com.apple.iTunes:RATING"
  }

  /** `k` is the atom some fixed field reads. */
  predicate IsFieldKey(k: string) {
    exists f :: KeyOf(f) == k
  }

  /** The fields whose atom is read directly, in reading order; the pair atoms
      stand for their number fields. This is also the order of the
      classification list. */
  const ListedFields: seq<Field> := [
    Title, Artist, Album, AlbumArtist, Composer, Date, Genre, Lyrics, Comment,
    TrackNumber, DiscNumber, Key, Bpm, DateAdded, DateAllPlays, DateLastPlayed,
    PlayCount, Votes, Rating]

  /** The atom list against which leftover atoms are classified. */
  const FixedKeys: seq<string> := [
    "\U{A9}nam", "\U{A9}ART", "\U{A9}alb", "aART", "\U{A9}wrt", "\U{A9}day",
    "\U{A9}gen", "\U{A9}lyr", "\U{A9}cmt", "trkn", "disk",
    "----:com.apple.iTunes:key", "----:com.apple.iTunes:BPM",
    "----:com.apple.iTunes:DATE_ADDED", "----:com.apple.iTunes:DATE_ALL_PLAYS",
    "----:com.apple.iTunes:DATE_LAST_PLAYED", "----:com.apple.iTunes:PLAY_COUNT",
    "----:com.apple.iTunes:VOTES", "----:com.apple.iTunes:RATING"]

  /** Atoms removed from the key list before classification, where present. */
  const IgnoreKeys: seq<string> := [
    "covr",
    "----:com.apple.iTunes:replaygain_album_gain", "----:com.apple.iTunes:replaygain_album_peak",
    "----:com.apple.iTunes:replaygain_track_gain", "----:com.apple.iTunes:replaygain_track_peak",
    "itunsmpb", "itunnorm"]

  /** Atoms read into the properties record. */
  const ReplayGainKeys: seq<string> := [
    "----:com.apple.iTunes:replaygain_album_gain", "----:com.apple.iTunes:replaygain_album_peak",
    "----:com.apple.iTunes:replaygain_track_gain", "----:com.apple.iTunes:replaygain_track_peak"]

  lemma ListedFieldsFollowFixedKeys()
    ensures |FixedKeys| == |ListedFields|
    ensures forall i | 0 <= i < |ListedFields| :: FixedKeys[i] == KeyOf(ListedFields[i])
  {
  }

  /** Where each field's atom sits on the classification list. */
  function FixedIndex(f: Field): (i: nat)
    ensures i < |FixedKeys| && FixedKeys[i] == KeyOf(f)
  {
    match f
    case Title => 0
    case Artist => 1
    case Album => 2
    case AlbumArtist => 3
    case Composer => 4
    case Date => 5
    case Genre => 6
    case Lyrics => 7
    case Comment => 8
    case TrackNumber => 9
    case TotalTracks => 9
    case DiscNumber => 10
    case TotalDiscs => 10
    case Key => 11
    case Bpm => 12
    case DateAdded => 13
    case DateAllPlays => 14
    case DateLastPlayed => 15
    case PlayCount => 16
    case Votes => 17
    case Rating => 18
  }

  /** Every field's atom is on the classification list. */
  lemma FieldKeyIsFixed(f: Field)
    ensures KeyOf(f) in FixedKeys
  {
    assert FixedKeys[FixedIndex(f)] == KeyOf(f);
  }

  /** The classification list holds exactly the atoms the fixed fields read. */
  lemma FixedKeysAreFieldKeys(k: string)
    ensures k in FixedKeys <==> IsFieldKey(k)
  {
    if k in FixedKeys {
      ListedFieldsFollowFixedKeys();
      var i :| 0 <= i < |FixedKeys| && FixedKeys[i] == k;
      assert KeyOf(ListedFields[i]) == k;
    }
    if IsFieldKey(k) {
      var f :| KeyOf(f) == k;
      FieldKeyIsFixed(f);
    }
  }

  /** Every field except the two totals has its atom read on its own. */
  lemma ListedFieldsCover(f: Field)
    ensures f in ListedFields <==> f != TotalTracks && f != TotalDiscs
  {
  }

  /** The classification list and the ignore list have no atom in common. */
  lemma FixedKeysAreNotIgnored()
    ensures forall k | k in FixedKeys :: k !in IgnoreKeys
  {
  }

  /** The last eight atoms on the classification list are freeform atoms. */
  lemma CustomKeysAreFreeform(i: int)
    requires 11 <= i < |FixedKeys|
    ensures Contains(FixedKeys[i], FreeformMarker)
  {
    assert FixedKeys[i][..|FreeformMarker|] == FreeformMarker;
    StartsWithContains(FixedKeys[i], FreeformMarker);
  }

  /** The first eleven atoms on the classification list are too short to be
      freeform atoms. */
  lemma StandardKeysAreNotFreeform(i: int)
    requires 0 <= i < 11
    ensures !Contains(FixedKeys[i], FreeformMarker)
  {
    assert |FixedKeys[i]| == 4;
    if Contains(FixedKeys[i], FreeformMarker) {
      ContainsIsLongEnough(FixedKeys[i], FreeformMarker);
    }
  }

  // ---------------------------------------------------------------- reading

  /** A payload that decodes as UTF-8. */
  predicate IsUtf8(v: Value) {
    v.Payload? && v.utf8.Some?
  }

  /** `value.decode('utf-8')` for each value in turn; anything that is not a
      decodable payload raises. */
  function DecodeUtf8(values: seq<Value>, key: string): (r: Result<seq<string>, Error>)
    ensures r.Success? <==> forall i | 0 <= i < |values| :: IsUtf8(values[i])
    ensures r.Success? ==> |r.value| == |values|
    ensures r.Success? ==> forall i | 0 <= i < |values| :: values[i].utf8 == Some(r.value[i])
    ensures r.Failure? ==> r.error == NotDecodable(key)
    decreases |values|
  {
    if |values| == 0 then Success([])
    else if !IsUtf8(values[0]) then Failure(NotDecodable(key))
    else
      var rest :- DecodeUtf8(values[1..], key);
      assert forall i | 1 <= i < |values| :: values[i] == values[1..][i - 1];
      Success([values[0].utf8.value] + rest)
  }

  /** The strings of `values` when every one is text; `None` when `';'.join`
      would meet something else. */
  function TextsOf(values: seq<Value>): (r: Option<seq<string>>)
    ensures r.Some? <==> forall i | 0 <= i < |values| :: values[i].Text?
    ensures r.Some? ==> |r.value| == |values|
    ensures r.Some? ==> forall i | 0 <= i < |values| :: values[i] == Text(r.value[i])
    decreases |values|
  {
    if |values| == 0 then Some([])
    else if !values[0].Text? then None
    else
      match TextsOf(values[1..])
      case None =>
        assert forall i | 1 <= i < |values| :: values[i] == values[1..][i - 1];
        None
      case Some(rest) =>
        assert forall i | 1 <= i < |values| :: values[i] == values[1..][i - 1];
        Some([values[0].s] + rest)
  }

  /** The value read from an atom holding `values`. A freeform atom's payloads
      are decoded as UTF-8 and then collapsed (one as is, several joined with
      `;`, none as `""`). Any other atom gives its one value unchanged, several
      values joined with `;` (which fails unless all are text), or `""` for none. */
  function DecodeValues(values: seq<Value>, key: string): (r: Result<Value, Error>)
    ensures Contains(key, FreeformMarker) ==>
      && (r.Success? <==> DecodeUtf8(values, key).Success?)
      && (r.Success? ==> r.value == Text(ValuesToTag(DecodeUtf8(values, key).value)))
      && (r.Failure? ==> r.error == NotDecodable(key))
    ensures !Contains(key, FreeformMarker) ==>
      && (|values| == 0 ==> r == Success(Text("")))
      && (|values| == 1 ==> r == Success(values[0]))
      && (|values| > 1 ==> (r.Success? <==> TextsOf(values).Some?))
      && (|values| > 1 && r.Success? ==> r.value == Text(ValuesToTag(TextsOf(values).value)))
      && (|values| > 1 && r.Failure? ==> r.error == NotJoinable(key))
  {
    if Contains(key, FreeformMarker) then
      var texts :- DecodeUtf8(values, key);
      Success(Text(Collapse(texts)))
    else if |values| == 1 then Success(values[0])
    else if |values| > 1 then
      match TextsOf(values)
      case Some(texts) => Success(Text(Collapse(texts)))
      case None => Failure(NotJoinable(key))
    else Success(Text(""))
  }

  /** `_getTagValueFromMutagenInterface`: the value read from the atom `key`;
      a missing atom (`KeyError`) reads as `""`; a bare flag has no `len()`,
      and the `TypeError` is not caught. */
  function Decode(atoms: Atoms, key: string): (r: Result<Value, Error>)
    ensures atoms.Get(key).None? ==> r == Success(Text(""))
    ensures atoms.Get(key).Some? && atoms.Get(key).value.Listed? ==>
      r == DecodeValues(atoms.Get(key).value.values, key)
    ensures atoms.Get(key).Some? && atoms.Get(key).value.Flag? ==> r == Failure(NoLength(key))
  {
    match atoms.Get(key)
    case None => Success(Text(""))
    case Some(Listed(values)) => DecodeValues(values, key)
    case Some(Flag(_)) => Failure(NoLength(key))
  }

  /** Strings free of `;` stored under an atom, as payloads of a freeform atom
      or as several texts of another atom, decode to a value that splits back
      into them (unless there are none or only an empty one). */
  lemma DecodeSplitsBack(atoms: Atoms, key: string, texts: seq<string>)
    requires atoms.Get(key).Some? && atoms.Get(key).value.Listed?
    requires var values := atoms.Get(key).value.values;
      || (Contains(key, FreeformMarker) && DecodeUtf8(values, key) == Success(texts))
      || (!Contains(key, FreeformMarker) && |values| > 1 && TextsOf(values) == Some(texts))
    requires DelimiterFree(texts) && texts != [] && texts != [""]
    ensures Decode(atoms, key).Success? && Decode(atoms, key).value.Text?
    ensures TagToValues(Decode(atoms, key).value.s, "").parts == texts
  {
    CollapseSplitsBack(texts);
  }

  /** A freeform atom holding one payload reads as its decoding. */
  lemma DecodeSinglePayload(atoms: Atoms, key: string, data: Bytes, s: string)
    requires Contains(key, FreeformMarker)
    requires atoms.Get(key) == Some(Listed([Payload(data, Some(s))]))
    ensures Decode(atoms, key) == Success(Text(s))
  {
    assert DecodeUtf8([Payload(data, Some(s))], key).value == [s];
  }

  /** A number and the total it is out of, as the canonical record holds them. */
  datatype Numbers = Numbers(number: string, total: string)

  /** The integer a rendered number stands for, `""` standing for zero:
      the inverse of `NumberText`. */
  function ParseNumber(s: string): int {
    if s == "" then 0
    else if s[0] == '-' then -DigitsValue(s[1..])
    else DigitsValue(s)
  }

  /** `str(n)`, except that zero renders as `""`. */
  function NumberText(n: int): (s: string)
    ensures s == "" <==> n == 0
    ensures ParseNumber(s) == n
  {
    if n == 0 then "" else IntToString(n)
  }

  /** Distinct numbers render as distinct texts. */
  lemma NumberTextInjective(m: int, n: int)
    requires NumberText(m) == NumberText(n)
    ensures m == n
  {
    assert ParseNumber(NumberText(m)) == m;
  }

  /** The `isinstance(v, tuple)` branch: a pair gives its rendered number and
      total, anything else (text, a payload, the `""` of a missing atom) gives
      two empty texts. */
  function SplitPair(v: Value): (r: Numbers)
    ensures v.Pair? ==> ParseNumber(r.number) == v.number && ParseNumber(r.total) == v.total
    ensures v.Pair? ==> (r.number == "" <==> v.number == 0) && (r.total == "" <==> v.total == 0)
    ensures !v.Pair? ==> r == Numbers("", "")
  {
    match v
    case Pair(number, total) => Numbers(NumberText(number), NumberText(total))
    case _ => Numbers("", "")
  }

  /** A track 3 of unknown total reads as `"3"` and `""`. */
  lemma SplitPairZeroTotal()
    ensures SplitPair(Pair(3, 0)) == Numbers("3", "")
  {
    assert IntToString(3) == "3";
  }

  /** A zero pair reads like a missing one. */
  lemma SplitPairZeroes()
    ensures SplitPair(Pair(0, 0)) == SplitPair(Text(""))
  {
  }

  /** `_formatM4AKeyToTagName`: an atom name containing the freeform marker
      anywhere loses its first 22 characters; the name is lower-cased. */
  function FormatKey(k: string): (r: string)
    ensures IsLower(r)
    ensures !Contains(k, FreeformMarker) ==> r == Lower(k)
  {
    if Contains(k, FreeformMarker) then
      ContainsIsLongEnough(k, FreeformMarker);
      LowerIsLower(k[22..]);
      Lower(k[22..])
    else
      LowerIsLower(k);
      Lower(k)
  }

  /** A freeform atom's name is its lower-cased NAME. */
  lemma FormatFreeformKey(name: string)
    ensures FormatKey(FreeformMarker + name) == Lower(name)
  {
    StartsWithContains(FreeformMarker + name, FreeformMarker);
    assert (FreeformMarker + name)[22..] == name;
  }

  /** The marker is looked for anywhere, but the first 22 characters are what
      is cut: a name with two characters before the marker keeps the marker's
      last two. */
  lemma FormatKeyCutsFirstTwentyTwo()
    ensures FormatKey("ab" + FreeformMarker + "NAME") == "s:name"
  {
    var k := "ab" + FreeformMarker + "NAME";
    assert k[2..24] == FreeformMarker;
    assert OccursAt(k, FreeformMarker, 2);
    assert k[22..] == "s:NAME";
  }

  /** A leftover atom: not ignored and not read by a fixed field. */
  predicate IsOtherKey(k: string) {
    k !in IgnoreKeys && k !in FixedKeys
  }

  /** `_removeUnneededTagKeysFromTagKeysList`: removes each ignored atom that is
      present and skips the rest. */
  function RelevantKeys(atoms: Atoms): (r: seq<string>)
    ensures r == Without(atoms.keys, IgnoreKeys)
  {
    RemoveEachIfPresent(atoms.keys, IgnoreKeys)
  }

  /** The leftover atoms, in native order. */
  function OtherKeys(relevant: seq<string>): (r: seq<string>)
    ensures forall k :: k in r <==> k in relevant && k !in FixedKeys
  {
    Filter(relevant, k => k !in FixedKeys)
  }

  /** The leftover atoms of a table are the atoms passing the combined test. */
  lemma OtherKeysOfTable(atoms: Atoms)
    ensures OtherKeys(RelevantKeys(atoms)) == Filter(atoms.keys, IsOtherKey)
  {
    FilterTwice(atoms.keys, x => x !in IgnoreKeys, k => k !in FixedKeys, IsOtherKey);
  }

  /** No later atom of `keys` has the same formatted name as `keys[i]`. */
  predicate LastWithName(keys: seq<string>, i: int)
    requires 0 <= i < |keys|
  {
    forall j | i < j < |keys| :: FormatKey(keys[j]) != FormatKey(keys[i])
  }

  /** An atom that is the last with its name stays so without the final atom,
      and the final atom has another name. */
  lemma LastWithNameInFront(keys: seq<string>, i: int)
    requires 0 <= i < |keys| - 1 && LastWithName(keys, i)
    ensures LastWithName(keys[..|keys| - 1], i)
    ensures FormatKey(keys[|keys| - 1]) != FormatKey(keys[i])
  {
    var front := keys[..|keys| - 1];
    forall j | i < j < |front| ensures FormatKey(front[j]) != FormatKey(front[i]) {
      assert front[j] == keys[j] && front[i] == keys[i];
    }
  }

  /** The `otherTags` loop: each atom's value is stored under its formatted name,
      so when two atoms format to the same name the later one wins. Fails at the
      first atom whose value cannot be read. */
  function CollectOther(atoms: Atoms, keys: seq<string>): (r: Result<map<string, Value>, Error>)
    ensures r.Success? <==> forall k | k in keys :: Decode(atoms, k).Success?
    ensures r.Success? ==> forall n :: n in r.value <==> exists k | k in keys :: FormatKey(k) == n
    ensures r.Success? ==> forall i | 0 <= i < |keys| && LastWithName(keys, i) ::
      r.value[FormatKey(keys[i])] == Decode(atoms, keys[i]).value
    decreases |keys|
  {
    if |keys| == 0 then Success(map[])
    else
      var front := keys[..|keys| - 1];
      var last := keys[|keys| - 1];
      assert forall k :: k in keys <==> k in front || k == last by {
        assert keys == front + [last];
      }
      var m :- CollectOther(atoms, front);
      var v :- Decode(atoms, last);
      assert forall i | 0 <= i < |keys| :: Decode(atoms, keys[i]).Success? by {
        forall i | 0 <= i < |keys| ensures Decode(atoms, keys[i]).Success? {
          assert keys[i] in keys;
        }
      }
      CollectOtherStep(atoms, keys, front, m, v);
      Success(m[FormatKey(last) := v])
  }

  /** Storing the last atom's value over the map collected from the atoms before
      it keeps the value of every atom that is the last of its name. */
  lemma CollectOtherStep(atoms: Atoms, keys: seq<string>, front: seq<string>, m: map<string, Value>, v: Value)
    requires |keys| > 0 && front == keys[..|keys| - 1]
    requires forall i | 0 <= i < |keys| :: Decode(atoms, keys[i]).Success?
    requires forall i | 0 <= i < |front| && LastWithName(front, i) ::
      FormatKey(front[i]) in m && m[FormatKey(front[i])] == Decode(atoms, front[i]).value
    requires Decode(atoms, keys[|keys| - 1]) == Success(v)
    ensures var r := m[FormatKey(keys[|keys| - 1]) := v];
      forall i | 0 <= i < |keys| && LastWithName(keys, i) ::
        FormatKey(keys[i]) in r && r[FormatKey(keys[i])] == Decode(atoms, keys[i]).value
  {
    var r := m[FormatKey(keys[|keys| - 1]) := v];
    forall i | 0 <= i < |keys| && LastWithName(keys, i)
      ensures FormatKey(keys[i]) in r && r[FormatKey(keys[i])] == Decode(atoms, keys[i]).value
    {
      if i < |keys| - 1 {
        LastWithNameInFront(keys, i);
        assert front[i] == keys[i];
      }
    }
  }

  /** The fields of `fields`, each read in turn; fails at the first field whose
      atom cannot be read. */
  function ReadFields(atoms: Atoms, fields: seq<Field>): (r: Result<map<Field, Value>, Error>)
    ensures r.Success? <==> forall f | f in fields :: Decode(atoms, KeyOf(f)).Success?
    ensures r.Success? ==> forall f :: f in r.value <==> f in fields
    ensures r.Success? ==> forall f | f in fields :: Decode(atoms, KeyOf(f)) == Success(r.value[f])
    decreases |fields|
  {
    if |fields| == 0 then Success(map[])
    else
      assert forall f :: f in fields <==> f == fields[0] || f in fields[1..] by {
        assert fields == [fields[0]] + fields[1..];
      }
      var v :- Decode(atoms, KeyOf(fields[0]));
      var m :- ReadFields(atoms, fields[1..]);
      Success(m[fields[0] := v])
  }

  /** What the fixed-field reads produce: the value read for each listed field. */
  datatype Fixed = Fixed(read: map<Field, Value>) {

    function Lookup(f: Field): Value {
      if f in read then read[f] else Text("")
    }

    /** The value the record's field `f` takes: the track and disc fields come
        from the splits of the pair atoms, the rest as read. */
    function Get(f: Field): Value {
      match f
      case TrackNumber => Text(SplitPair(Lookup(TrackNumber)).number)
      case TotalTracks => Text(SplitPair(Lookup(TrackNumber)).total)
      case DiscNumber => Text(SplitPair(Lookup(DiscNumber)).number)
      case TotalDiscs => Text(SplitPair(Lookup(DiscNumber)).total)
      case _ => Lookup(f)
    }
  }

  /** A record whose fields are those of `fixed` holds the splits of its pairs. */
  lemma FixedFieldsOfRecord(fixed: Fixed, r: Tags)
    requires forall f :: r.Get(f) == fixed.Get(f)
    ensures r.trackNumber == Text(SplitPair(fixed.Lookup(TrackNumber)).number)
    ensures r.totalTracks == Text(SplitPair(fixed.Lookup(TrackNumber)).total)
    ensures r.discNumber == Text(SplitPair(fixed.Lookup(DiscNumber)).number)
    ensures r.totalDiscs == Text(SplitPair(fixed.Lookup(DiscNumber)).total)
  {
    assert r.Get(TrackNumber) == fixed.Get(TrackNumber) && r.Get(TotalTracks) == fixed.Get(TotalTracks);
    assert r.Get(DiscNumber) == fixed.Get(DiscNumber) && r.Get(TotalDiscs) == fixed.Get(TotalDiscs);
  }

  /** The fields whose own atom is read: all but the two totals. */
  predicate IsRead(f: Field) {
    f != TotalTracks && f != TotalDiscs
  }

  /** The fields read from freeform atoms. */
  predicate IsCustom(f: Field) {
    f in {Key, Bpm, DateAdded, DateAllPlays, DateLastPlayed, PlayCount, Votes, Rating}
  }

  /** The custom fields read freeform atoms and the other read fields do not. */
  lemma CustomKeyIsFreeform(f: Field)
    requires IsRead(f)
    ensures Contains(KeyOf(f), FreeformMarker) <==> IsCustom(f)
  {
    var i := FixedIndex(f);
    if IsCustom(f) {
      assert 11 <= i;
      CustomKeysAreFreeform(i);
    } else {
      assert i < 11;
      StandardKeysAreNotFreeform(i);
    }
  }

  /** Lines reading the fixed fields of `getTags`: each read field's atom in the
      order of the classification list. Fails at the first read that raises. */
  function ReadFixed(atoms: Atoms): (r: Result<Fixed, Error>)
    ensures r.Success? <==> forall f | IsRead(f) :: Decode(atoms, KeyOf(f)).Success?
    ensures r.Success? ==> forall f | IsRead(f) :: Decode(atoms, KeyOf(f)) == Success(r.value.Lookup(f))
  {
    assert forall f :: f in ListedFields <==> IsRead(f) by {
      forall f ensures f in ListedFields <==> IsRead(f) {
        ListedFieldsCover(f);
      }
    }
    var read :- ReadFields(atoms, ListedFields);
    Success(Fixed(read))
  }

  /** Lines building `otherTags` in `getTags`: the leftover atoms and their values. */
  function ReadOther(atoms: Atoms): (r: Result<map<string, Value>, Error>)
    ensures r == CollectOther(atoms, Filter(atoms.keys, IsOtherKey))
  {
    OtherKeysOfTable(atoms);
    CollectOther(atoms, OtherKeys(RelevantKeys(atoms)))
  }

  /** `getTags`: the standard atoms, the pair splits and the freeform atoms, then
      `otherTags`. */
  function GetTags(file: M4aFile): (r: Result<Tags, Error>)
    ensures r.Success? <==> ReadFixed(file.atoms).Success? && ReadOther(file.atoms).Success?
    ensures r.Success? ==> forall f :: r.value.Get(f) == ReadFixed(file.atoms).value.Get(f)
    ensures r.Success? ==> r.value.otherTags == ReadOther(file.atoms).value
  {
    var fixed :- ReadFixed(file.atoms);
    var otherTags :- ReadOther(file.atoms);
    Success(Build(fixed.Get, otherTags))
  }

  /** A field other than the four number fields holds the value read from its atom. */
  lemma ReadPlainField(file: M4aFile, f: Field)
    requires GetTags(file).Success?
    requires f != TrackNumber && f != TotalTracks && f != DiscNumber && f != TotalDiscs
    ensures Decode(file.atoms, KeyOf(f)) == Success(GetTags(file).value.Get(f))
  {
    assert IsRead(f);
  }

  /** The number fields of a successful read are the splits of the values read
      from `trkn` and `disk`. */
  lemma ReadNumbers(file: M4aFile)
    requires GetTags(file).Success?
    ensures var r := GetTags(file).value;
      && Decode(file.atoms, KeyOf(TrackNumber)).Success? && Decode(file.atoms, KeyOf(DiscNumber)).Success?
      && r.trackNumber.Text? && r.totalTracks.Text? && r.discNumber.Text? && r.totalDiscs.Text?
      && SplitPair(Decode(file.atoms, KeyOf(TrackNumber)).value) == Numbers(r.trackNumber.s, r.totalTracks.s)
      && SplitPair(Decode(file.atoms, KeyOf(DiscNumber)).value) == Numbers(r.discNumber.s, r.totalDiscs.s)
  {
    var fixed := ReadFixed(file.atoms).value;
    assert IsRead(TrackNumber) && IsRead(DiscNumber);
    FixedFieldsOfRecord(fixed, GetTags(file).value);
  }

  /** A custom field of a successful read is the collapse of the UTF-8 decodings
      of its freeform atom's payloads, or `""` when the atom is missing. */
  lemma ReadCustomField(file: M4aFile, f: Field)
    requires GetTags(file).Success?
    requires IsCustom(f)
    ensures var key := KeyOf(f);
      && (file.atoms.Get(key).None? ==> GetTags(file).value.Get(f) == Text(""))
      && (file.atoms.Get(key).Some? ==>
            && file.atoms.Get(key).value.Listed?
            && DecodeUtf8(file.atoms.Get(key).value.values, key).Success?
            && GetTags(file).value.Get(f) == Text(ValuesToTag(DecodeUtf8(file.atoms.Get(key).value.values, key).value)))
  {
    CustomKeyIsFreeform(f);
    ReadPlainField(file, f);
  }

  /** A standard atom holding one value gives that value itself, whatever it
      is: text, a pair, an integer or a payload. */
  lemma ReadStandardField(file: M4aFile, f: Field, v: Value)
    requires GetTags(file).Success?
    requires !IsCustom(f) && f != TrackNumber && f != TotalTracks && f != DiscNumber && f != TotalDiscs
    requires file.atoms.Get(KeyOf(f)) == Some(Listed([v]))
    ensures GetTags(file).value.Get(f) == v
  {
    CustomKeyIsFreeform(f);
    ReadPlainField(file, f);
  }

  /** `otherTags` of a successful read collects the leftover atoms in native order. */
  lemma ReadOtherTags(file: M4aFile)
    requires GetTags(file).Success?
    ensures CollectOther(file.atoms, Filter(file.atoms.keys, IsOtherKey)) == Success(GetTags(file).value.otherTags)
  {
  }

  /** Every read of a table with no atoms gives `""`. */
  lemma BlankTableDecodes(atoms: Atoms, key: string)
    requires atoms.keys == []
    ensures Decode(atoms, key) == Success(Text(""))
  {
  }

  /** Reads that all give `""` make a record whose fixed fields are all `""`. */
  lemma BlankReadsGiveBlankFields(fixed: Fixed)
    requires forall f | IsRead(f) :: fixed.Lookup(f) == Text("")
    ensures forall f :: fixed.Get(f) == Text("")
  {
    assert fixed.Lookup(TrackNumber) == Text("") && fixed.Lookup(DiscNumber) == Text("");
  }

  /** A file without atoms reads as blank fixed fields and no other tags. */
  lemma BlankFileReadsBlank(info: StreamInfo)
    ensures var r := GetTags(M4aFile(EmptyTable(), info));
      && r.Success?
      && (forall f :: r.value.Get(f) == Text(""))
      && r.value.otherTags == map[]
  {
    var file := M4aFile(EmptyTable(), info);
    forall key ensures Decode(file.atoms, key) == Success(Text("")) {
      BlankTableDecodes(file.atoms, key);
    }
    BlankReadsGiveBlankFields(ReadFixed(file.atoms).value);
    assert Filter(file.atoms.keys, IsOtherKey) == [];
  }

  /** After a successful read every atom of the file is accounted for exactly
      once: an ignored atom, an atom a fixed field reads, or a leftover whose
      formatted name is in `otherTags`. */
  lemma KeysClassified(file: M4aFile, k: string)
    requires GetTags(file).Success?
    requires k in file.atoms.keys
    ensures k in IgnoreKeys || IsFieldKey(k) || FormatKey(k) in GetTags(file).value.otherTags
    ensures IsFieldKey(k) ==> k !in IgnoreKeys
  {
    FixedKeysAreFieldKeys(k);
    FixedKeysAreNotIgnored();
    ReadOtherTags(file);
    if IsOtherKey(k) {
      assert k in Filter(file.atoms.keys, IsOtherKey);
    }
  }

  /** The library's encoder atom is a freeform atom named `itunsmpb` once
      formatted, and it is on neither list. */
  lemma EncoderAtomIsOther()
    ensures IsOtherKey("----:com.apple.iTunes:iTunSMPB")
    ensures FormatKey("----:com.apple.iTunes:iTunSMPB") == "itunsmpb"
  {
    FormatFreeformKey("iTunSMPB");
    assert FreeformMarker + "iTunSMPB" == "----:com.apple.iTunes:iTunSMPB";
  }

  /** The encoder atoms the library actually stores are freeform atoms, so the
      ignore list's bare `itunsmpb` does not catch them: their formatted name
      is `itunsmpb` and it stays in `otherTags`. */
  lemma EncoderAtomIsKept(file: M4aFile)
    requires GetTags(file).Success?
    requires "----:com.apple.iTunes:iTunSMPB" in file.atoms.keys
    ensures "itunsmpb" in GetTags(file).value.otherTags
  {
    EncoderAtomIsOther();
    FixedKeysAreFieldKeys("----:com.apple.iTunes:iTunSMPB");
    KeysClassified(file, "----:com.apple.iTunes:iTunSMPB");
  }

  /** A leftover atom stored as a bare flag makes the read fail: the
      `otherTags` loop reads every leftover atom, and `len()` of the flag
      raises. */
  lemma FlagAtomFailsRead(file: M4aFile, k: string)
    requires k in file.atoms.keys && IsOtherKey(k)
    requires file.atoms.Get(k).value.Flag?
    ensures GetTags(file).Failure?
  {
    assert k in Filter(file.atoms.keys, IsOtherKey);
    assert Decode(file.atoms, k).Failure?;
    assert ReadOther(file.atoms).Failure?;
  }

  /** The compilation flag `cpil` is on neither list. */
  lemma CompilationAtomIsOther()
    ensures IsOtherKey("cpil")
  {
  }

  /** A file flagged as part of a compilation cannot be read. */
  lemma CompilationFlagFailsRead(file: M4aFile, b: bool)
    requires "cpil" in file.atoms.keys && file.atoms.Get("cpil") == Some(Flag(b))
    ensures GetTags(file).Failure?
  {
    CompilationAtomIsOther();
    FlagAtomFailsRead(file, "cpil");
  }

  // ---------------------------------------------------------------- properties

  /** `getProperties`: the fixed format name, the codec description and stream
      information, and the four replay-gain atoms read like tags, in order;
      a replay-gain read can fail. */
  function GetProperties(file: M4aFile, stat: FileStat): (r: Result<Properties, Error>)
    ensures r.Success? <==> forall k | k in ReplayGainKeys :: Decode(file.atoms, k).Success?
    ensures r.Success? ==>
      && r.value.format == "M4A"
      && r.value.encoder == "" && r.value.bitRateMode == ""
      && r.value.codec == file.info.codecDescription
      && r.value.bitDepth == Some(file.info.bitsPerSample)
      && r.value.numChannels == file.info.channels
      && r.value.sampleRate == file.info.sampleRate
      && r.value.fileSize == stat.size
      && r.value.fileDateModified == stat.dateModified
    ensures r.Success? ==>
      && Decode(file.atoms, ReplayGainKeys[0]) == Success(r.value.replayGain.albumGain)
      && Decode(file.atoms, ReplayGainKeys[1]) == Success(r.value.replayGain.albumPeak)
      && Decode(file.atoms, ReplayGainKeys[2]) == Success(r.value.replayGain.trackGain)
      && Decode(file.atoms, ReplayGainKeys[3]) == Success(r.value.replayGain.trackPeak)
  {
    var t := file.atoms;
    assert forall k | k in ReplayGainKeys :: (k == ReplayGainKeys[0] || k == ReplayGainKeys[1]
      || k == ReplayGainKeys[2] || k == ReplayGainKeys[3]);
    var albumGain :- Decode(t, ReplayGainKeys[0]);
    var albumPeak :- Decode(t, ReplayGainKeys[1]);
    var trackGain :- Decode(t, ReplayGainKeys[2]);
    var trackPeak :- Decode(t, ReplayGainKeys[3]);
    Success(Properties(
      stat.size, stat.dateModified, "M4A", Some(file.info.bitsPerSample),
      file.info.channels, file.info.sampleRate, "", "", file.info.codecDescription,
      ReplayGain(albumGain, albumPeak, trackGain, trackPeak)))
  }

  // ---------------------------------------------------------------- artwork

  /** `bytes(n)` for a count `n`: `n` zero bytes. */
  function ZeroBytes(n: nat): (r: Bytes)
    ensures |r| == n
    ensures forall i | 0 <= i < n :: r[i] == 0
  {
    seq(n, _ => 0 as byte)
  }

  /** `bytes(v)` for a value stored under `covr`: a payload gives its bytes; a
      pair of integers gives the two bytes when both are below 256; an integer
      `n >= 0` gives `n` zero bytes; anything else raises. */
  function BlobOf(v: Value): (r: Option<Bytes>)
    ensures v.Payload? ==> r == Some(v.data)
    ensures v.Text? || v.Stamp? ==> r.None?
    ensures v.Pair? ==> (r.Some? <==> 0 <= v.number < 256 && 0 <= v.total < 256)
    ensures r.Some? && v.Pair? ==> |r.value| == 2 && r.value[0] as int == v.number && r.value[1] as int == v.total
    ensures v.Int? ==> (r.Some? <==> v.n >= 0)
    ensures r.Some? && v.Int? ==> |r.value| == v.n && forall i | 0 <= i < |r.value| :: r.value[i] == 0
  {
    match v
    case Payload(data, _) => Some(data)
    case Pair(number, total) =>
      if 0 <= number < 256 && 0 <= total < 256 then Some([number as byte, total as byte]) else None
    case Int(n) => if n >= 0 then Some(ZeroBytes(n)) else None
    case _ => None
  }

  /** `getEmbeddedArtwork`: the bytes of each value under `covr`, in order; a
      missing `covr` atom, or any value that cannot be converted, gives no
      artwork at all. A bare flag is not a list and is converted whole:
      `bytes(True)` is one zero byte, `bytes(False)` is empty. */
  method GetEmbeddedArtwork(file: M4aFile) returns (artworks: seq<Bytes>)
    ensures file.atoms.Get(CoverKey).None? ==> artworks == []
    ensures file.atoms.Get(CoverKey).Some? && file.atoms.Get(CoverKey).value.Flag? ==>
      artworks == [ZeroBytes(if file.atoms.Get(CoverKey).value.on then 1 else 0)]
    ensures file.atoms.Get(CoverKey).Some? && file.atoms.Get(CoverKey).value.Listed? ==>
      var values := file.atoms.Get(CoverKey).value.values;
      && ((exists i | 0 <= i < |values| :: BlobOf(values[i]).None?) ==> artworks == [])
      && ((forall i | 0 <= i < |values| :: BlobOf(values[i]).Some?) ==>
            |artworks| == |values| && forall i | 0 <= i < |values| :: BlobOf(values[i]) == Some(artworks[i]))
  {
    var entry := file.atoms.Get(CoverKey);
    if entry.None? {
      return [];
    }
    if entry.value.Flag? {
      return [ZeroBytes(if entry.value.on then 1 else 0)];
    }
    var values := entry.value.values;
    artworks := [];
    var i := 0;
    while i < |values|
      invariant 0 <= i <= |values|
      invariant |artworks| == i
      invariant forall j | 0 <= j < i :: BlobOf(values[j]) == Some(artworks[j])
    {
      var blob := BlobOf(values[i]);
      if blob.None? {
        return [];
      }
      artworks := artworks + [blob.value];
      i := i + 1;
    }
  }
}
