/** The dispatcher `AudioFileMetadataHandler` of `mlu/tags/io.py`: it checks the
    path, derives the file type from the extension, binds the translator for
    that type, and forwards every read to it. */
module Dispatch {
  import opened Results
  import opened Strings
  import opened Schema
  import Flac
  import Mp3
  import M4a

  /** The file types the dispatcher accepts, in lower case. */
  const SupportedTypes: seq<string> := ["flac", "mp3", "m4a"]

  /** The file at the path as each tag library would load it. Which one is used
      depends only on the bound translator, never on the file's content. */
  datatype Views = Views(flac: Flac.FlacFile, mp3: Mp3.Mp3File, m4a: M4a.M4aFile)

  /** The translator bound at construction. `Unbound` is a type that passes the
      case-insensitive check but matches no branch exactly, so no translator
      attribute is ever set. The FLAC and M4A translators read the file on
      every call; the MP3 translator keeps a library handle. */
  datatype Translator =
    | Unbound
    | FlacTranslator(flac: Flac.FlacFile)
    | Mp3Translator(handler: Mp3.Handler, mp3: Mp3.Mp3File)
    | M4aTranslator(m4a: M4a.M4aFile)

  datatype MetadataHandler = MetadataHandler(path: string, fileType: string, translator: Translator)

  /** A dispatcher call: the dispatcher afterwards and the value returned or
      the exception raised. */
  datatype Step<T> = Step(handler: MetadataHandler, result: Result<T, Error>)

  /** The file type: the extension with every `.` removed. */
  function FileType(extension: string): (t: string)
    ensures '.' !in t
    ensures forall c | c != '.' :: c in t <==> c in extension
  {
    RemoveChar(extension, '.')
  }

  /** The exact-case branches of the constructor. */
  function Bind(fileType: string, views: Views): (r: Translator)
    ensures r.FlacTranslator? <==> fileType == "flac"
    ensures r.Mp3Translator? <==> fileType == "mp3"
    ensures r.M4aTranslator? <==> fileType == "m4a"
    ensures r.Unbound? <==> fileType !in SupportedTypes
    ensures r.FlacTranslator? ==> r.flac == views.flac
    ensures r.Mp3Translator? ==> r.mp3 == views.mp3 && r.handler.interface.None?
    ensures r.M4aTranslator? ==> r.m4a == views.m4a
  {
    if fileType == "flac" then FlacTranslator(views.flac)
    else if fileType == "mp3" then Mp3Translator(Mp3.NewHandler(), views.mp3)
    else if fileType == "m4a" then M4aTranslator(views.m4a)
    else Unbound
  }

  /** The constructor: a path that is not an existing file is rejected first;
      then a type whose lower-case form is not supported; otherwise the
      translator of the exact type is bound. `isFile` and `extension` are what
      the filesystem helpers report for the path. */
  function Open(path: string, isFile: bool, extension: string, views: Views): (r: Result<MetadataHandler, Error>)
    ensures !isFile ==> r == Failure(InvalidPath(path))
    ensures r.Success? <==> isFile && Lower(FileType(extension)) in SupportedTypes
    ensures isFile && r.Failure? ==> r.error == UnsupportedFormat(path)
    ensures r.Success? ==> r.value.path == path && r.value.fileType == FileType(extension)
    ensures r.Success? ==> r.value.translator == Bind(FileType(extension), views)
  {
    if !isFile then Failure(InvalidPath(path))
    else
      var fileType := FileType(extension);
      if Lower(fileType) !in SupportedTypes then Failure(UnsupportedFormat(path))
      else Success(MetadataHandler(path, fileType, Bind(fileType, views)))
  }

  /** `getTags`: the bound translator's tags, or the `AttributeError` of a
      dispatcher with no translator. */
  function GetTags(h: MetadataHandler): (r: Result<Tags, Error>)
    ensures h.translator.Unbound? ==> r == Failure(NoTranslator)
    ensures h.translator.FlacTranslator? ==> r == Success(Flac.GetTags(h.translator.flac))
    ensures h.translator.Mp3Translator? ==> r == Mp3.GetTags(h.translator.handler)
    ensures h.translator.M4aTranslator? ==> r == M4a.GetTags(h.translator.m4a)
  {
    match h.translator
    case Unbound => Failure(NoTranslator)
    case FlacTranslator(file) => Success(Flac.GetTags(file))
    case Mp3Translator(handler, _) => Mp3.GetTags(handler)
    case M4aTranslator(file) => M4a.GetTags(file)
  }

  /** `getProperties`: the bound translator's properties; the MP3 translator
      keeps the handle it loads. `stat` is what the filesystem helpers report. */
  function GetProperties(h: MetadataHandler, stat: FileStat): (r: Step<Properties>)
    ensures h.translator.Unbound? ==> r == Step(h, Failure(NoTranslator))
    ensures h.translator.FlacTranslator? ==> r == Step(h, Success(Flac.GetProperties(h.translator.flac, stat)))
    ensures h.translator.Mp3Translator? ==>
      var o := Mp3.GetProperties(h.translator.mp3, stat);
      r == Step(h.(translator := h.translator.(handler := o.handler)), o.result)
    ensures h.translator.M4aTranslator? ==> r == Step(h, M4a.GetProperties(h.translator.m4a, stat))
    ensures r.handler.path == h.path && r.handler.fileType == h.fileType
  {
    match h.translator
    case Unbound => Step(h, Failure(NoTranslator))
    case FlacTranslator(file) => Step(h, Success(Flac.GetProperties(file, stat)))
    case Mp3Translator(_, file) =>
      var o := Mp3.GetProperties(file, stat);
      Step(h.(translator := h.translator.(handler := o.handler)), o.result)
    case M4aTranslator(file) => Step(h, M4a.GetProperties(file, stat))
  }

  /** `getEmbeddedArtwork`: the bound translator's artwork; the MP3 translator
      keeps the handle it loads. */
  method GetEmbeddedArtwork(h: MetadataHandler) returns (r: Step<seq<Bytes>>)
    ensures h.translator.Unbound? ==> r == Step(h, Failure(NoTranslator))
    ensures h.translator.FlacTranslator? ==>
      && r.handler == h && r.result.Success?
      && |r.result.value| == |h.translator.flac.pictures|
      && forall i | 0 <= i < |r.result.value| :: r.result.value[i] == h.translator.flac.pictures[i].data
    ensures h.translator.Mp3Translator? ==>
      && r.handler == h.(translator := h.translator.(handler := Mp3.Handler(Some(h.translator.mp3))))
      && (r.result.Success? <==> forall k | k in Mp3.PictureKeys(h.translator.mp3.frames) ::
            h.translator.mp3.frames.Get(k).value.DataFrame?)
    ensures h.translator.Mp3Translator? && r.result.Failure? ==>
      var frames := h.translator.mp3.frames;
      exists k | k in Mp3.PictureKeys(frames) ::
        r.result.error == NoDataAttribute(k) && !frames.Get(k).value.DataFrame?
    ensures h.translator.Mp3Translator? && r.result.Success? ==>
      var frames := h.translator.mp3.frames;
      && |r.result.value| == |Mp3.PictureKeys(frames)|
      && forall i | 0 <= i < |r.result.value| ::
           frames.Get(Mp3.PictureKeys(frames)[i]) == Some(Mp3.DataFrame(r.result.value[i]))
    ensures h.translator.M4aTranslator? ==> r.handler == h && r.result.Success?
    ensures h.translator.M4aTranslator? ==>
      var entry := h.translator.m4a.atoms.Get(M4a.CoverKey);
      && (entry.None? ==> r.result.value == [])
      && (entry.Some? && entry.value.Flag? ==>
            r.result.value == [M4a.ZeroBytes(if entry.value.on then 1 else 0)])
      && (entry.Some? && entry.value.Listed? ==>
            var values := entry.value.values;
            && ((exists i | 0 <= i < |values| :: M4a.BlobOf(values[i]).None?) ==> r.result.value == [])
            && ((forall i | 0 <= i < |values| :: M4a.BlobOf(values[i]).Some?) ==>
                  && |r.result.value| == |values|
                  && forall i | 0 <= i < |values| :: M4a.BlobOf(values[i]) == Some(r.result.value[i])))
    ensures r.handler.path == h.path && r.handler.fileType == h.fileType
  {
    match h.translator
    case Unbound =>
      r := Step(h, Failure(NoTranslator));
    case FlacTranslator(file) =>
      var artworks := Flac.GetEmbeddedArtwork(file);
      r := Step(h, Success(artworks));
    case Mp3Translator(_, file) =>
      var o := Mp3.GetEmbeddedArtwork(file);
      r := Step(h.(translator := h.translator.(handler := o.handler)), o.result);
    case M4aTranslator(file) =>
      var artworks := M4a.GetEmbeddedArtwork(file);
      r := Step(h, Success(artworks));
  }

  // ---------------------------------------------------------------- properties

  /** The lower-case form of each supported type is itself. */
  lemma SupportedTypesAreLower()
    ensures forall t | t in SupportedTypes :: Lower(t) == t
  {
    assert Lower("flac") == "flac";
    assert Lower("mp3") == "mp3";
    assert Lower("m4a") == "m4a";
  }

  /** Construction succeeds exactly for an existing file whose type is a
      supported type in any letter case; a translator is bound exactly when
      the type is written in lower case. */
  lemma OpenBindsExactCase(path: string, extension: string, views: Views)
    requires Open(path, true, extension, views).Success?
    ensures Open(path, true, extension, views).value.translator.Unbound?
      <==> FileType(extension) != Lower(FileType(extension))
  {
    SupportedTypesAreLower();
  }

  /** The extension the filesystem helper reports, a dot and then the type,
      gives that type. */
  lemma FileTypeAfterDot(t: string)
    requires '.' !in t
    ensures FileType("." + t) == t
  {
    RemoveCharAppend(".", t, '.');
    RemoveAbsentChar(t, '.');
  }

  /** Every dot is removed, not only the leading one: the pieces on either side
      of a dot are joined. */
  lemma FileTypeJoinsPieces(a: string, b: string)
    ensures FileType(a + "." + b) == FileType(a) + FileType(b)
  {
    RemoveCharAppend(a + ".", b, '.');
    RemoveCharAppend(a, ".", '.');
  }

  /** `.FLAC` names the type `FLAC`, whose lower-case form is supported. */
  lemma CapitalFlacType()
    ensures FileType(".FLAC") == "FLAC" && Lower("FLAC") == "flac"
  {
    FileTypeAfterDot("FLAC");
  }

  /** An upper-case extension passes the check but binds no translator, so
      every read fails. */
  lemma UpperCaseBindsNothing(path: string, views: Views)
    ensures Open(path, true, ".FLAC", views).Success?
    ensures GetTags(Open(path, true, ".FLAC", views).value) == Failure(NoTranslator)
  {
    CapitalFlacType();
  }

  /** An MP3 file opened through the dispatcher cannot be read before its
      properties or artwork are, and reads the file afterwards. */
  lemma Mp3TagsNeedALoad(path: string, extension: string, views: Views, stat: FileStat)
    requires Open(path, true, extension, views).Success?
    requires FileType(extension) == "mp3"
    ensures var h := Open(path, true, extension, views).value;
      && GetTags(h) == Failure(NoInterfaceLoaded)
      && GetTags(GetProperties(h, stat).handler) == Mp3.ReadTags(views.mp3.frames)
  {
  }

  /** The FLAC and M4A translators do not depend on earlier calls: their tags
      are the same before and after reading the properties. */
  lemma ReadsAreIndependent(h: MetadataHandler, stat: FileStat)
    requires h.translator.FlacTranslator? || h.translator.M4aTranslator?
    ensures GetTags(GetProperties(h, stat).handler) == GetTags(h)
  {
  }
}
