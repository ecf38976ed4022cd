# Tag normalisation of the music-library utilities

This project models the tag layer of the music-library utilities: the code that
turns the native tags of FLAC, MP3 and M4A files into one canonical record and
back. It covers five parts.

- **The `;` codec** (`mlu/tags/common.py`): a list of tag values is stored as one
  string joined by `;`, and a tag string splits back into its values.
- **The FLAC translator** (`mlu/tags/audiofmt/flac.py`): Vorbis comment keys.
  It reads 21 fixed fields and the leftover keys (`otherTags`), the properties
  record and the embedded pictures. It writes back the five play-statistics
  fields.
- **The MP3 translator** (`mlu/tags/audiofmt/mp3.py`): ID3 frames. It reads the
  timestamp frame `TDRC` through its `.text`, splits `TRCK`/`TPOS` at `/`, names
  user text frames by their description, and keeps a library handle between
  calls.
- **The M4A translator** (`mlu/tags/audiofmt/m4a.py`): MP4 atoms. It reads the
  integer pairs `trkn`/`disk` and decodes freeform atoms as UTF-8.
- **The dispatcher** `AudioFileMetadataHandler` (`mlu/tags/io.py`): it checks
  the path, derives the file type from the extension, binds the translator
  and forwards reads to it.

The tag library's view of a file is an abstract ordered table (`NativeTables`):
its keys in the library's iteration order and the entry under each key.
Subscripting a missing key gives `None`, standing for the library's `KeyError`.
A value is what the library hands back: text, an ID3 timestamp, an MP4 integer
pair, an MP4 byte payload, or an MP4 integer (`Schema.Value`). An MP4 atom holds
a list of values, or a bare boolean for the flag atoms `cpil`, `pgap` and `pcst`
(`M4a.Atom`); an ID3 frame's `.text` is a list, or one string for the lyrics
frame `USLT` (`Mp3.Frame`). Every exception the modelled code
raises is a `Schema.Error` in a `Result`.

Inputs from outside the modelled code are parameters:
- the file's size and modification date (`FileStat`);
- whether the path is an existing file, and its extension;
- the file as each library would load it (`Dispatch.Views`).

Modules: `Results`, `Strings` (the Python `str` operations used), `Codec`,
`NativeTables`, `Schema` (the canonical records and errors), `Flac`, `Mp3`,
`M4a`, `Dispatch`.

The model follows the code. Points where the code behaves in a way a reader
might not expect:

- **Fixed fields hold raw values.** Fixed fields and `otherTags` entries hold
  whatever value the library returned, not always a string. For example, an M4A
  standard atom with one value keeps that value as it is (`M4a.ReadStandardField`).
- **An MP3 file without frames cannot be read.** Its missing `TDRC` reads as `""`,
  which has no `.text` (`Mp3.BlankFileFails`). A file missing one of the ignored
  frames cannot be read either: `list.remove` raises `ValueError` for the
  missing frame (`Schema.Error.KeyNotInList`, `Mp3.MissingIgnoredKeyFails`).
- **MP3 lyrics read character by character.** The `.text` of a `USLT` frame is
  one string, so its "elements" are its characters: `ab` reads as `a;b`
  (`Mp3.LyricsJoinedByCharacter`).
- **An M4A flag atom stops the read.** The flag atoms hold a bare boolean, and
  `len()` of it raises `TypeError`; a file holding `cpil` cannot be read
  (`M4a.CompilationFlagFailsRead`).
- **MP3 `getTags` uses the loaded handle.** It reads through the handle that
  `getProperties` or `getEmbeddedArtwork` loaded. A fresh translator raises
  `TypeError` (`Mp3.FreshHandlerCannotRead`, `Dispatch.Mp3TagsNeedALoad`).
  `setTags` writes through a handle of its own and leaves the translator's
  handle as it was, so a read right after a write sees the old frames (see
  Findings).
- **The M4A encoder atoms are not ignored.** The M4A ignore list names `itunsmpb`
  and `itunnorm`, but the library stores those as freeform atoms
  `----:com.apple.iTunes:iTunSMPB` and `----:com.apple.iTunes:iTunNORM`. The
  removal therefore skips them and they reach `otherTags` (`M4a.EncoderAtomIsKept`).
- **Only a lower-case type binds a translator.** The dispatcher accepts a file
  type in any letter case but binds a translator only for the exact lower-case
  names. An upper-case extension therefore opens, but every read fails
  (`Dispatch.UpperCaseBindsNothing`).
- **M4A has no tag writer.** The M4A translator has no `setTags` at all, and the
  dispatcher forwards no `setTags`.

## Model

| member | source | states |
|---|---|---|
| `Codec.ValuesToTag` | mlu/tags/common.py:11-16 | no values give `""`; `n` `;`-free values give a string with exactly `n - 1` delimiters |
| `Codec.TagToValues` | mlu/tags/common.py:18-33 | `""` gives no values; any other string gives one more piece than it has `;`, none containing `;`, which join back to the string; the element conversion is text unless `int` or `float` is asked for |
| `Codec.ValuesRoundTrip` | mlu/tags/common.py:11-33 | splitting the joined `;`-free list gives the list back, exactly unless the list is `[""]` |
| `Codec.TagRoundTrip` | mlu/tags/common.py:11-33 | joining the split pieces of any tag string gives the string back |
| `Codec.CollapseSplitsBack` | mlu/tags/audiofmt/flac.py:182-196 | the joined native values of a key split back into those values when they are `;`-free and not `[]` or `[""]` |
| `Strings.Split` | mlu/tags/common.py:31 | `str.split`: one more piece than separators, no piece holds the separator, and the pieces join back to the string |
| `Strings.SplitOfJoin` | mlu/tags/common.py:11-33 | splitting the join of separator-free pieces gives the pieces back |
| `Strings.RemoveChar` | mlu/tags/io.py:42 | `str.replace(c, '')`: `c` no longer occurs, every other character is kept, and the length drops by the number of occurrences of `c` |
| `NativeTables.RemoveEach` | mlu/tags/audiofmt/mp3.py:220-237 | the `list.remove` calls on a duplicate-free key list give the list without the removed keys, or fail naming a key to remove |
| `NativeTables.RemoveEachSucceeds` | mlu/tags/audiofmt/mp3.py:220-237 | the removals succeed exactly when every key to remove is present |
| `NativeTables.RemoveEachFailsAtFirstMissing` | mlu/tags/audiofmt/mp3.py:220-237 | a failed removal names the first key to remove that is absent, after all the keys before it were present |
| `NativeTables.RemoveEachIfPresent` | mlu/tags/audiofmt/m4a.py:192-209 | the removals guarded by `if key in list` give the duplicate-free list without the listed keys |
| `NativeTables.Filter` | mlu/tags/audiofmt/flac.py:130-133 | a list comprehension keeps exactly the elements passing the test, in order, without adding duplicates |
| `NativeTables.Put` | mlu/tags/audiofmt/mp3.py:210-218 | a dict store sets the key, leaves every other key's entry alone, and appends the key only when it is new |
| `NativeTables.PutLast` | mlu/tags/audiofmt/flac.py:202-206 | a Vorbis assignment sets the key, leaves every other key's entry alone, and moves the key to the end |
| `NativeTables.PutAll` | mlu/tags/audiofmt/flac.py:202-206 | assignments in turn under distinct keys: each key holds its own value, every other key is unchanged, and the key set grows by exactly the assigned keys |
| `Schema.Build` | mlu/tags/audiofmt/flac.py:80-137 | the record built from the field reads holds each field's read value and the given `otherTags` |
| `Schema.TextsToWrite` | mlu/tags/audiofmt/flac.py:202-206 | the texts to write exist exactly when every written field holds text; they are those fields' texts in order; otherwise the failure names a non-text field |
| `Flac.FixedKeysAreFieldKeys` | mlu/tags/audiofmt/flac.py:103-125 | the classification list holds exactly the keys the 21 fixed-field reads use |
| `Flac.KeyOfInjective` | mlu/tags/audiofmt/flac.py:80-100 | no two fixed fields read the same Vorbis key |
| `Flac.ReplayGainKeysAreNotFieldKeys` | mlu/tags/audiofmt/flac.py:166-180 | the replay-gain keys are read by no fixed field |
| `Flac.Decode` | mlu/tags/audiofmt/flac.py:182-196 | a missing key reads as `""`; a present key reads as its values joined with `;` |
| `Flac.DecodeSplitsBack` | mlu/tags/audiofmt/flac.py:182-196 | a read key's text splits back into the stored values when they are `;`-free and not `[]` or `[""]` |
| `Flac.RelevantKeys` | mlu/tags/audiofmt/flac.py:166-180 | on a duplicate-free key list, the result is the list without the four replay-gain keys |
| `Flac.OtherNames` | mlu/tags/audiofmt/flac.py:127-133 | the leftover names are exactly the lower-cased keys that are not on the classification list |
| `Flac.OtherTags` | mlu/tags/audiofmt/flac.py:135-137 | the map has exactly the given names, each holding its key read back as text |
| `Flac.OtherNamesOfComments` | mlu/tags/audiofmt/flac.py:127-137 | the leftover names of a comment table are its keys that are neither replay-gain keys nor read by a fixed field |
| `Flac.OtherTagsOf` | mlu/tags/audiofmt/flac.py:127-137 | `otherTags` holds exactly the keys that are neither replay-gain keys nor fixed keys, each read back as text |
| `Flac.GetTags` | mlu/tags/audiofmt/flac.py:74-164 | each fixed field is the text read from its own key, and `otherTags` is the leftover map |
| `Flac.BlankFileReadsBlank` | mlu/tags/audiofmt/flac.py:74-164 | a file without comments reads as all fixed fields `""` and no other tags |
| `Flac.KeysClassified` | mlu/tags/audiofmt/flac.py:103-137 | every key of a file is a replay-gain key, a fixed key, or a name in `otherTags`, and never two of these |
| `Flac.GetProperties` | mlu/tags/audiofmt/flac.py:36-70 | format `FLAC`, empty encoder, bit-rate mode and codec, the stream's bit depth, channels and sample rate, the file's size and date, and the four replay-gain keys read as text |
| `Flac.GetEmbeddedArtwork` | mlu/tags/audiofmt/flac.py:25-34 | the artwork list has the data of each embedded picture, in storage order |
| `Flac.WriteComments` | mlu/tags/audiofmt/flac.py:198-208 | after the five assignments each written key holds exactly its one text, and every other key is unchanged |
| `Flac.WrittenKeysReadBack` | mlu/tags/audiofmt/flac.py:198-208 | each written key reads back as the text assigned to it |
| `Flac.SetTags` | mlu/tags/audiofmt/flac.py:198-208 | succeeds exactly when the five written fields hold text; each written key then holds its field's text, other keys and the pictures and stream are unchanged |
| `Flac.SetThenGet` | mlu/tags/audiofmt/flac.py:74-208 | reading after `setTags` gives the written values in the five written fields and leaves every other field and `otherTags` as before |
| `Flac.FieldsAfterAssigning` | mlu/tags/audiofmt/flac.py:74-100 | fields whose keys were not assigned read the same after an assignment |
| `Flac.OtherTagsAfterAssigning` | mlu/tags/audiofmt/flac.py:127-137 | assigning fixed keys leaves `otherTags` unchanged |
| `Flac.RewriteIsStable` | mlu/tags/audiofmt/flac.py:74-208 | writing back the tags just read succeeds and changes no tag |
| `Flac.SetTagsKeepsProperties` | mlu/tags/audiofmt/flac.py:36-70 | writing tags leaves the properties record unchanged |
| `Mp3.NewHandler` | mlu/tags/audiofmt/mp3.py:24-26 | a new translator holds no library handle |
| `Mp3.FixedKeysAreFieldKeys` | mlu/tags/audiofmt/mp3.py:133-153 | the classification list holds exactly the frame keys the fixed-field reads use |
| `Mp3.FixedKeysAreNotIgnored` | mlu/tags/audiofmt/mp3.py:133-153 | the classification list and the list of removed frames share no key |
| `Mp3.Decode` | mlu/tags/audiofmt/mp3.py:247-261 | a missing frame reads as `""`; a text frame reads as its strings joined with `;`; a one-string frame as its characters joined with `;`; a timestamp frame as its one timestamp, `""` when empty, and fails to join several; any other frame fails for lack of `.text` |
| `Strings.Chars` | mlu/tags/audiofmt/mp3.py:249-255 | iterating a string gives one one-character string per character, in order |
| `Mp3.StringFrameSplitsIntoCharacters` | mlu/tags/audiofmt/mp3.py:247-261 | a `;`-free one-string frame reads as a value that splits into its characters, not into the string; one character reads as itself |
| `Mp3.LyricsJoinedByCharacter` | mlu/tags/audiofmt/mp3.py:247-261 | lyrics `ab` read as `a;b`, where a text frame holding the one string `ab` reads as `ab` |
| `Mp3.DecodeSplitsBack` | mlu/tags/audiofmt/mp3.py:247-261 | a text frame's value splits back into its strings when they are `;`-free and not `[]` or `[""]` |
| `Mp3.TextOf` | mlu/tags/audiofmt/mp3.py:100 | `.text` succeeds exactly for a timestamp and gives its text; anything else fails naming the key |
| `Mp3.SplitNumberOfTotal` | mlu/tags/audiofmt/mp3.py:102-119 | text with a `/` gives the first two pieces; text without one, or a pair, is the number with total `""`; any other value fails the `in` test |
| `Mp3.NumberOfTotalRoundTrip` | mlu/tags/audiofmt/mp3.py:102-119 | `number/total` with `/`-free parts splits back into the number and the total |
| `Mp3.FormatKey` | mlu/tags/audiofmt/mp3.py:239-245 | the name is lower case; a key without `TXXX:` is just lower-cased |
| `Mp3.FormatUserTextKey` | mlu/tags/audiofmt/mp3.py:239-245 | a user text frame `TXXX:description` is named by its lower-cased description |
| `Mp3.FormatKeyCutsFirstFive` | mlu/tags/audiofmt/mp3.py:239-245 | `TXXX:` is searched for anywhere, but the first five characters are what is cut |
| `Mp3.RelevantKeys` | mlu/tags/audiofmt/mp3.py:220-237 | succeeds exactly when every ignored frame is present; the result is the keys that are neither pictures nor ignored, in order; a failure names an ignored frame that is absent |
| `Mp3.OtherKeysOfTable` | mlu/tags/audiofmt/mp3.py:155-160 | the leftover keys are the file's keys passing the combined relevance and not-fixed test |
| `Mp3.CollectOther` | mlu/tags/audiofmt/mp3.py:160-166 | succeeds exactly when every key decodes; the map holds exactly the formatted names, each with the value of the last key of that name |
| `Mp3.ReadFields` | mlu/tags/audiofmt/mp3.py:94-130 | the reads succeed exactly when each field's frame decodes, and then give the decoded values |
| `Mp3.ReadFixed` | mlu/tags/audiofmt/mp3.py:94-130 | succeeds exactly when the plain frames decode, `TDRC` has `.text` and `TRCK`/`TPOS` support the `/` test; gives the decoded plain values, the date text and the splits |
| `Mp3.ReadTags` | mlu/tags/audiofmt/mp3.py:90-193 | a read succeeds exactly when the fixed fields and `otherTags` both do, and has their values |
| `Mp3.ReadPlainField` | mlu/tags/audiofmt/mp3.py:94-99 | a plain field of a successful read holds its frame's decoded value |
| `Mp3.ReadDate` | mlu/tags/audiofmt/mp3.py:100 | the date of a successful read is the text of the timestamp under `TDRC` |
| `Mp3.ReadNumbers` | mlu/tags/audiofmt/mp3.py:102-119 | track and disc number and total of a successful read are the splits of `TRCK` and `TPOS` |
| `Mp3.ReadOtherTags` | mlu/tags/audiofmt/mp3.py:155-166 | `otherTags` of a successful read collects the leftover keys in native order |
| `Mp3.GetTags` | mlu/tags/audiofmt/mp3.py:90-193 | without a handle the read fails with `TypeError`; otherwise it reads the frames of the loaded file |
| `Mp3.FreshHandlerCannotRead` | mlu/tags/audiofmt/mp3.py:24-26 | a new translator cannot read tags |
| `Mp3.BlankFileFails` | mlu/tags/audiofmt/mp3.py:100 | a file without frames fails at the `.text` of `TDRC` |
| `Mp3.MissingIgnoredKeyFails` | mlu/tags/audiofmt/mp3.py:220-237 | a file lacking any frame on the removal list cannot be read |
| `Mp3.KeysClassified` | mlu/tags/audiofmt/mp3.py:133-166 | after a successful read every frame key is a picture, an ignored frame, a fixed key, or a leftover key whose name is in `otherTags`; a fixed or ignored key is never a picture |
| `Mp3.WrittenFieldsDecode` | mlu/tags/audiofmt/mp3.py:210-218 | after the five stores each written field's frame decodes to that field's text |
| `Mp3.SetTags` | mlu/tags/audiofmt/mp3.py:195-218 | succeeds exactly when the five written fields hold text; each written frame then holds its field's text, other frames are unchanged, and new keys are appended |
| `Mp3.FixedAfterSet` | mlu/tags/audiofmt/mp3.py:90-218 | after `setTags` the date and splits read as before and the written fields read the written texts |
| `Mp3.OtherAfterSet` | mlu/tags/audiofmt/mp3.py:155-218 | `setTags` leaves `otherTags` unchanged |
| `Mp3.SetThenRead` | mlu/tags/audiofmt/mp3.py:90-218 | reading the frames `setTags` saved, as a translator does after reloading the file, succeeds, gives the written values in the five written fields and leaves every other field and `otherTags` as before |
| `Mp3.SetTagsOnHandle` | mlu/tags/audiofmt/mp3.py:195-218 | `setTags` as written: the translator's handle is left as it was; the write succeeds exactly when the five written fields hold text, and each written frame then decodes to its field's text |
| `Mp3.StaleReadAfterSet` | mlu/tags/audiofmt/mp3.py:90-218 | after a successful write through a loaded translator, `getTags` reads the same as before, so a changed written field reads its old value although the saved frames hold the new one |
| `Mp3.WrittenFieldReads` | mlu/tags/audiofmt/mp3.py:90-218 | a written field of the saved frames reads its written value |
| `Mp3.ReadAfterSetOnNewHandler` | mlu/tags/audiofmt/mp3.py:24-26 | a translator that loaded nothing still cannot read after `setTags` |
| `Mp3.SetTagsAndReload` | mlu/tags/audiofmt/mp3.py:195-218 | `setTags` with the handle updated: the write's result as before, and on success the handle holds the written file; on failure it is unchanged |
| `Mp3.ReloadedReadGivesWritten` | mlu/tags/audiofmt/mp3.py:90-218 | with the reload, `getTags` right after `setTags` gives the written values in the five written fields and every other field and `otherTags` as before |
| `Mp3.ModeNameInjective` | mlu/tags/audiofmt/mp3.py:53-61 | distinct known bit-rate modes have distinct names |
| `Mp3.GetProperties` | mlu/tags/audiofmt/mp3.py:45-88 | loads the file into the handle; succeeds exactly when the replay-gain frames decode, and then records the format, encoder, mode name, stream information, file size and date and the replay-gain values |
| `Mp3.PropertiesLoadTheFile` | mlu/tags/audiofmt/mp3.py:45-193 | after `getProperties` the translator reads the tags of the file it loaded |
| `Mp3.GetEmbeddedArtwork` | mlu/tags/audiofmt/mp3.py:28-43 | loads the file; succeeds exactly when every picture frame carries data, and then returns that data in native order; a failure comes from a picture frame without data |
| `M4a.FixedKeysAreFieldKeys` | mlu/tags/audiofmt/m4a.py:131-151 | the classification list holds exactly the atoms the fixed-field reads use |
| `M4a.FixedKeysAreNotIgnored` | mlu/tags/audiofmt/m4a.py:131-151 | the classification list and the ignore list share no atom |
| `M4a.CustomKeyIsFreeform` | mlu/tags/audiofmt/m4a.py:85-128 | among the fields read on their own, exactly the custom fields read freeform atoms |
| `M4a.DecodeUtf8` | mlu/tags/audiofmt/m4a.py:224-231 | succeeds exactly when every value is a payload that decodes as UTF-8, and then gives the decodings in order |
| `M4a.DecodeValues` | mlu/tags/audiofmt/m4a.py:219-243 | a freeform atom gives its decodings joined with `;`, failing for a value that is not a decodable payload; another atom gives `""` for no values, its one value as it is (an integer included), or its texts joined with `;`, failing if they are not all text |
| `M4a.Decode` | mlu/tags/audiofmt/m4a.py:219-243 | a missing atom reads as `""`; a listed atom reads by the value rule; a bare flag fails because `len()` of it raises `TypeError` |
| `M4a.FlagAtomFailsRead` | mlu/tags/audiofmt/m4a.py:153-164 | a leftover atom holding a bare flag makes the whole read fail |
| `M4a.CompilationAtomIsOther` | mlu/tags/audiofmt/m4a.py:131-151 | `cpil` is neither ignored nor a fixed atom, so it is read as a leftover atom |
| `M4a.CompilationFlagFailsRead` | mlu/tags/audiofmt/m4a.py:153-164 | a file whose `cpil` holds a flag cannot be read |
| `M4a.DecodeSplitsBack` | mlu/tags/audiofmt/m4a.py:219-243 | `;`-free strings stored under an atom, as payloads of a freeform atom or as several texts of another, read back to a value that splits into those strings |
| `M4a.DecodeSinglePayload` | mlu/tags/audiofmt/m4a.py:224-231 | a freeform atom with one payload reads as its decoding |
| `M4a.NumberText` | mlu/tags/audiofmt/m4a.py:97-117 | a number renders as `""` exactly when it is zero, and the rendering parses back to the number |
| `M4a.NumberTextInjective` | mlu/tags/audiofmt/m4a.py:97-117 | distinct numbers render as distinct texts |
| `M4a.SplitPair` | mlu/tags/audiofmt/m4a.py:97-117 | a pair gives its number and total as texts, zero as `""`; anything else gives `""` for both |
| `M4a.SplitPairZeroes` | mlu/tags/audiofmt/m4a.py:97-117 | a zero pair reads like a missing one |
| `M4a.FormatKey` | mlu/tags/audiofmt/m4a.py:211-217 | the name is lower case; an atom without the freeform marker is just lower-cased |
| `M4a.FormatFreeformKey` | mlu/tags/audiofmt/m4a.py:211-217 | a freeform atom `----:com.apple.iTunes:NAME` is named by its lower-cased NAME |
| `M4a.FormatKeyCutsFirstTwentyTwo` | mlu/tags/audiofmt/m4a.py:211-217 | the marker is searched for anywhere, but the first 22 characters are what is cut |
| `M4a.RelevantKeys` | mlu/tags/audiofmt/m4a.py:192-209 | the atom list without the ignored atoms that are present |
| `M4a.OtherKeysOfTable` | mlu/tags/audiofmt/m4a.py:153-164 | the leftover atoms are the file's atoms that are neither ignored nor fixed |
| `M4a.CollectOther` | mlu/tags/audiofmt/m4a.py:153-164 | succeeds exactly when every atom reads; the map holds exactly the formatted names, each with the value of the last atom of that name |
| `M4a.ReadFields` | mlu/tags/audiofmt/m4a.py:85-128 | the reads succeed exactly when each field's atom reads, and then give the values read |
| `M4a.FixedFieldsOfRecord` | mlu/tags/audiofmt/m4a.py:97-117 | the record's track and disc number and total are the splits of the values read from `trkn` and `disk` |
| `M4a.ReadFixed` | mlu/tags/audiofmt/m4a.py:85-128 | succeeds exactly when every field's own atom reads, and then holds the values read |
| `M4a.ReadOther` | mlu/tags/audiofmt/m4a.py:153-164 | `otherTags` collects the leftover atoms in native order |
| `M4a.GetTags` | mlu/tags/audiofmt/m4a.py:80-190 | a read succeeds exactly when every field's atom and every leftover atom reads; fields are the values read (track and disc split), `otherTags` the leftover map |
| `M4a.ReadPlainField` | mlu/tags/audiofmt/m4a.py:85-95 | a field other than the four number fields holds the value read from its atom |
| `M4a.ReadNumbers` | mlu/tags/audiofmt/m4a.py:97-117 | track and disc number and total of a successful read are the splits of the values under `trkn` and `disk` |
| `M4a.ReadCustomField` | mlu/tags/audiofmt/m4a.py:121-128 | a custom field of a successful read is the `;`-join of the UTF-8 decodings of its freeform atom |
| `M4a.ReadStandardField` | mlu/tags/audiofmt/m4a.py:85-95 | a standard atom holding one value gives that value itself, whatever it is |
| `M4a.ReadOtherTags` | mlu/tags/audiofmt/m4a.py:153-164 | `otherTags` of a successful read collects the leftover atoms in native order |
| `M4a.BlankFileReadsBlank` | mlu/tags/audiofmt/m4a.py:80-190 | a file without atoms reads successfully as all fixed fields `""` and no other tags |
| `M4a.KeysClassified` | mlu/tags/audiofmt/m4a.py:131-164 | after a successful read every atom is ignored, a fixed atom, or a leftover atom whose name is in `otherTags`; a fixed atom is never ignored |
| `M4a.EncoderAtomIsOther` | mlu/tags/audiofmt/m4a.py:192-217 | the library's encoder atom is a leftover atom named `itunsmpb` |
| `M4a.EncoderAtomIsKept` | mlu/tags/audiofmt/m4a.py:192-209 | a successful read of a file holding the encoder atom keeps it in `otherTags` |
| `M4a.GetProperties` | mlu/tags/audiofmt/m4a.py:44-77 | format `M4A`, the codec description and stream information, the file size and date, and the four replay-gain atoms as read; fails when one of them does not read |
| `M4a.ZeroBytes` | mlu/tags/audiofmt/m4a.py:31-37 | `bytes(n)`: `n` zero bytes |
| `M4a.BlobOf` | mlu/tags/audiofmt/m4a.py:31-35 | `bytes(v)`: a payload gives its bytes, a pair of byte-sized integers gives those two bytes, a non-negative integer `n` gives `n` zero bytes, anything else cannot convert |
| `M4a.GetEmbeddedArtwork` | mlu/tags/audiofmt/m4a.py:26-42 | no `covr` atom gives no artwork; a bare flag gives `bytes(flag)`, one zero byte for true and none for false; in a list, any value that cannot convert gives no artwork; otherwise each value's bytes in order |
| `Dispatch.FileType` | mlu/tags/io.py:42 | the file type has no `.` and otherwise the characters of the extension |
| `Dispatch.FileTypeAfterDot` | mlu/tags/io.py:42 | the extension `.type` gives `type` |
| `Dispatch.FileTypeJoinsPieces` | mlu/tags/io.py:42 | every dot is removed, joining the pieces on either side |
| `Dispatch.Bind` | mlu/tags/io.py:48-55 | exactly `flac`, `mp3` and `m4a` bind their translator; any other type binds none; the MP3 translator starts without a handle |
| `Dispatch.Open` | mlu/tags/io.py:34-55 | a path that is not a file fails first; otherwise construction succeeds exactly when the lower-cased type is supported, and binds the translator of the exact type |
| `Dispatch.OpenBindsExactCase` | mlu/tags/io.py:45-55 | an opened handler has no translator exactly when its type is not written in lower case |
| `Dispatch.UpperCaseBindsNothing` | mlu/tags/io.py:45-61 | `.FLAC` opens, but reading its tags fails for lack of a translator |
| `Dispatch.GetTags` | mlu/tags/io.py:57-61 | forwards to the bound translator; no translator fails with `AttributeError` |
| `Dispatch.GetProperties` | mlu/tags/io.py:63-67 | forwards to the bound translator and keeps the MP3 handle it loads; no translator fails |
| `Dispatch.GetEmbeddedArtwork` | mlu/tags/io.py:69-73 | forwards to the bound translator and keeps the MP3 handle it loads; no translator fails; the artwork is the translator's: the FLAC picture data, the MP3 picture frames' data in native order or the error for a frame without data, and the M4A `covr` values' bytes by the cover rules |
| `Dispatch.Mp3TagsNeedALoad` | mlu/tags/io.py:57-67 | an opened MP3 file cannot be read until its properties are, and then reads its frames |
| `Dispatch.ReadsAreIndependent` | mlu/tags/io.py:57-67 | FLAC and M4A tags read the same before and after the properties |

## Left out

- Duration and bit rate in the properties record: both are floating-point values (`bitsToKilobits`, the stream length), so the record omits them.
- The `int` and `float` conversions of `formatAudioTagToValuesList`: the model records which conversion applies (`Codec.Coercion`) but does not parse numbers.
- UTF-8 decoding: the result of decoding a payload is given with the payload (`Value.Payload.utf8`) rather than computed from its bytes.
- Letter case: `str.lower()` is modelled for ASCII letters only.
- Vorbis key matching: the comment table is modelled with lower-case keys, where the library matches keys case-insensitively.
- M4a.GetEmbeddedArtwork: the branch for a `covr` value that is not a list (m4a.py 36-37) is modelled for a bare flag only; the library stores cover art as a list, so a bare cover object has no entry in the atom table.
- Files without a tag block (`tags is None`) and a library load that returns `None`: each file is modelled with a tag table, possibly empty.
- The ID3 version translation the library performs on load and save.
- A file whose content does not match its extension: the views of a file are given as parameters.
- The writers left commented out in the dispatcher and in the MP3 translator: they are not part of the running code.
- Logging and the reading of the path through the filesystem helpers: these are the `isFile`, `extension` and `FileStat` parameters.
- Mp3.GetProperties: the bit rate and duration of the record are omitted, because both are floating-point values.
- Flac.GetProperties: the duration and bit rate of the record are omitted, because both are floating-point values.
- M4a.GetProperties: the duration and bit rate of the record are omitted, because both are floating-point values.

## Findings

| source | as written | input that shows it | evidently intended | confidence | as-written member | corrected member |
|---|---|---|---|---|---|---|
| mlu/tags/audiofmt/mp3.py:195-218 | `setTags` writes through a local `ID3` handle and never updates `self.mutagenInterface`, which `getTags` reads (mp3.py 90-193, 247-255) | a loaded translator whose `TXXX:PLAY_COUNT` reads `1`, then `setTags` with play count `2`, then `getTags`: it reads `1`; the write-then-read helper of test/tags/io_test.py 210-238 expects the new values | after `setTags` the translator's handle holds the written file, so the next `getTags` reads the written values | not executed | `Mp3.StaleReadAfterSet` | `Mp3.SetTagsAndReload` |
