/**
 * File classification of src/lib/fileUtils.ts: the extension is the
 * lower-cased text after the last dot of the name, and the file type is the
 * first category, in a fixed order, whose extension list holds it or, for
 * some categories, whose MIME prefix the file's type starts with.
 */
module FileUtils {
  import opened JsText
  import opened JsCollections

  datatype FileType = Image | Video | Audio | Document | Text | Archive | Other

  datatype CompressionSide = Client | Server

  datatype FileTypeInfo = FileTypeInfo(
    fileType: FileType,
    mimeType: string,
    extension: string,
    icon: string,
    supportsPreview: bool,
    compressionMethod: CompressionSide)

  const ImageExtensions: seq<string> := ["jpg", "jpeg", "png", "gif", "webp", "bmp", "tiff", "svg", "ico", "heic", "avif"]
  const VideoExtensions: seq<string> := ["mp4", "webm", "avi", "mov", "mkv", "flv", "wmv", "m4v", "3gp"]
  const AudioExtensions: seq<string> := ["mp3", "wav", "ogg", "flac", "aac", "m4a", "wma"]
  const DocumentExtensions: seq<string> := ["pdf", "doc", "docx", "xls", "xlsx", "ppt", "pptx", "odt", "ods", "odp"]
  const TextExtensions: seq<string> :=
    ["txt", "md", "json", "xml", "csv", "html", "css", "js", "ts", "jsx", "tsx", "py", "java", "c", "cpp", "h",
     "hpp", "yaml", "yml", "toml", "ini", "cfg", "log"]
  const ArchiveExtensions: seq<string> := ["zip", "rar", "7z", "tar", "gz", "bz2", "xz"]

  /** `toLowerCase` on the ASCII letters; other characters are kept. */
  function ToLower(s: string): (r: string)
    ensures |r| == |s|
    ensures forall i :: 0 <= i < |s| ==> (r[i] == '.' <==> s[i] == '.')
  {
    if s == [] then []
    else [if 'A' <= s[0] <= 'Z' then (s[0] as int + 32) as char else s[0]] + ToLower(s[1..])
  }

  /** `fileName.toLowerCase().split('.')`, then the last part if there are several, else `''`. */
  function GetFileExtension(fileName: string): string {
    var parts := Split(ToLower(fileName), ".");
    if |parts| > 1 then parts[|parts| - 1] else ""
  }

  predicate StartsWith(s: string, prefix: string) {
    |prefix| <= |s| && s[..|prefix|] == prefix
  }

  /** `getFileType(file)` for a file named `name` with MIME type `mimeType`. */
  function GetFileType(name: string, mimeType: string): (info: FileTypeInfo)
    ensures info.mimeType == mimeType && info.extension == GetFileExtension(name)
    ensures info.supportsPreview <==> info.fileType == Image || info.fileType == Video
    ensures info.compressionMethod == Client <==> info.fileType == Text || info.fileType == Other
  {
    var extension := GetFileExtension(name);
    if extension in ImageExtensions || StartsWith(mimeType, "image/") then
      FileTypeInfo(Image, mimeType, extension, "Image", true, Server)
    else if extension in VideoExtensions || StartsWith(mimeType, "video/") then
      FileTypeInfo(Video, mimeType, extension, "Video", true, Server)
    else if extension in AudioExtensions || StartsWith(mimeType, "audio/") then
      FileTypeInfo(Audio, mimeType, extension, "Music", false, Server)
    else if extension in DocumentExtensions then
      FileTypeInfo(Document, mimeType, extension, "FileText", false, Server)
    else if extension in TextExtensions || StartsWith(mimeType, "text/") then
      FileTypeInfo(Text, mimeType, extension, "FileCode", false, Client)
    else if extension in ArchiveExtensions then
      FileTypeInfo(Archive, mimeType, extension, "Archive", false, Server)
    else
      FileTypeInfo(Other, mimeType, extension, "File", false, Client)
  }

  // ---------------------------------------------------------------------
  // Reference definitions
  // ---------------------------------------------------------------------

  /** The categories in the order they are tried. */
  const Priority: seq<FileType> := [Image, Video, Audio, Document, Text, Archive]

  function Extensions(t: FileType): seq<string> {
    match t
    case Image => ImageExtensions
    case Video => VideoExtensions
    case Audio => AudioExtensions
    case Document => DocumentExtensions
    case Text => TextExtensions
    case Archive => ArchiveExtensions
    case Other => []
  }

  /** The MIME prefix a category accepts, if any. */
  function MimePrefix(t: FileType): Option<string> {
    match t
    case Image => Some("image/")
    case Video => Some("video/")
    case Audio => Some("audio/")
    case Text => Some("text/")
    case _ => None
  }

  /** A category claims a file by its extension, or by its MIME prefix where it has one. */
  predicate Matches(t: FileType, extension: string, mimeType: string) {
    extension in Extensions(t) || (MimePrefix(t).Some? && StartsWith(mimeType, MimePrefix(t).value))
  }

  /** The first category from position `i` of the priority order that claims the file. */
  function FirstMatch(extension: string, mimeType: string, i: nat): FileType
    requires i <= |Priority|
    decreases |Priority| - i
  {
    if i == |Priority| then Other
    else if Matches(Priority[i], extension, mimeType) then Priority[i]
    else FirstMatch(extension, mimeType, i + 1)
  }

  // ---------------------------------------------------------------------
  // Lemmas
  // ---------------------------------------------------------------------

  /** `s.split('.')` has several pieces exactly when `s` holds a dot. */
  lemma {:induction false} SplitDotCount(s: string)
    ensures |Split(s, ".")| > 1 <==> '.' in s
    ensures '.' !in s ==> Split(s, ".") == [s]
  {
    if s == [] {
      assert Split(s, ".") == [""];
    } else {
      var rest := s[1..];
      SplitDotCount(rest);
      var t := Split(rest, ".");
      assert s == [s[0]] + rest;
      if s[0] == '.' {
        assert s[..1] == ".";
        assert Split(s, ".") == [""] + t;
      } else {
        assert s[..1] != ".";
        assert Split(s, ".") == [[s[0]] + t[0]] + t[1..];
        if '.' !in rest {
          assert [s[0]] + t[0] == s && t[1..] == [];
        }
      }
    }
  }

  /** The last piece of `s.split('.')` is the text after the last dot. */
  lemma {:induction false} SplitDotLast(s: string)
    ensures var last := Split(s, ".")[|Split(s, ".")| - 1];
            |last| <= |s| && s[|s| - |last|..] == last && '.' !in last &&
            ('.' in s ==> |last| < |s| && s[|s| - |last| - 1] == '.')
  {
    if s == [] {
      assert Split(s, ".") == [""];
    } else {
      var rest := s[1..];
      SplitDotLast(rest);
      SplitDotCount(rest);
      var t := Split(rest, ".");
      var last := t[|t| - 1];
      assert s == [s[0]] + rest;
      assert s[|s| - |last|..] == rest[|rest| - |last|..];
      if s[0] == '.' {
        assert s[..1] == ".";
        assert Split(s, ".") == [""] + t;
      } else {
        assert s[..1] != ".";
        assert Split(s, ".") == [[s[0]] + t[0]] + t[1..];
        if |t| > 1 {
          assert Split(s, ".")[|t| - 1] == last;
        } else {
          assert Split(s, ".") == [s];
        }
      }
    }
  }

  /** Lower-casing neither adds nor removes a dot. */
  lemma LowerKeepsDots(s: string)
    ensures '.' in ToLower(s) <==> '.' in s
  {
    var lower := ToLower(s);
    if '.' in s {
      var i :| 0 <= i < |s| && s[i] == '.';
      assert lower[i] == '.';
    }
    if '.' in lower {
      var i :| 0 <= i < |lower| && lower[i] == '.';
      assert s[i] == '.';
    }
  }

  /**
   * The extension is the lower-cased text after the last dot: empty when
   * the name has no dot or ends with one, never containing a dot.
   */
  lemma ExtensionSpec(fileName: string)
    ensures '.' !in fileName ==> GetFileExtension(fileName) == ""
    ensures '.' !in GetFileExtension(fileName)
    ensures '.' in fileName ==>
              var lower, ext := ToLower(fileName), GetFileExtension(fileName);
              |ext| < |lower| && lower[|lower| - |ext|..] == ext && lower[|lower| - |ext| - 1] == '.'
    ensures |fileName| > 0 && fileName[|fileName| - 1] == '.' ==> GetFileExtension(fileName) == ""
  {
    var lower := ToLower(fileName);
    SplitDotCount(lower);
    SplitDotLast(lower);
    LowerKeepsDots(fileName);
    if |fileName| > 0 && fileName[|fileName| - 1] == '.' {
      assert lower[|lower| - 1] == '.';
    }
  }

  /** A name that starts with its only dot has the rest as extension. */
  lemma LeadingDotName()
    ensures GetFileExtension(".bashrc") == "bashrc"
  {
    var s := ".bashrc";
    assert ToLower(s) == s;
    assert s[..1] == ".";
    assert '.' !in s[1..];
    SplitDotCount(s[1..]);
  }

  /** The file type is the first category in priority order that matches, else `Other`. */
  lemma FirstMatchWins(name: string, mimeType: string)
    ensures GetFileType(name, mimeType).fileType == FirstMatch(GetFileExtension(name), mimeType, 0)
  {
  }

  /** Documents and archives are recognised by extension only: the MIME type never makes one. */
  lemma ExtensionOnlyCategories(name: string, mimeType: string)
    ensures GetFileType(name, mimeType).fileType == Document ==> GetFileExtension(name) in DocumentExtensions
    ensures GetFileType(name, mimeType).fileType == Archive ==> GetFileExtension(name) in ArchiveExtensions
  {
  }
}
