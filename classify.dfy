/**
 * The per-file labels of the listing: the extension, the human-readable type of
 * filelight_getFileType and the icon and colour of filelight_getFileIcon.
 */
module Classify {
  import opened Wrappers
  import opened Text

  /** The index of the last occurrence of c in s (strrpos for one character). */
  function LastIndexOf(s: string, c: char): (r: Option<nat>)
    ensures r.None? <==> c !in s
    ensures r.Some? ==> r.value < |s| && s[r.value] == c && c !in s[r.value + 1..]
    decreases |s|
  {
    if s == [] then None
    else if s[|s| - 1] == c then Some(|s| - 1)
    else
      var r := LastIndexOf(s[..|s| - 1], c);
      assert s == s[..|s| - 1] + [s[|s| - 1]];
      r
  }

  /** `pathinfo($name, PATHINFO_EXTENSION)`: what follows the last dot, or "" without a dot. */
  function Extension(name: string): (r: string)
    ensures '.' !in r
    ensures |r| <= |name| && r == name[|name| - |r|..]
    ensures '.' in name ==> name[|name| - |r| - 1] == '.'
    ensures '.' !in name ==> r == ""
  {
    match LastIndexOf(name, '.')
    case None => ""
    case Some(i) => name[i + 1..]
  }

  /** The type map of index.php:237-248, keyed by lower-case extension. */
  function TypeLabel(ext: string): (r: Option<string>)
    ensures r.Some? ==> r.value != ""
  {
    match ext
    case "pdf" => Some("PDF")
    case "doc" => Some("Document")
    case "docx" => Some("Document")
    case "xls" => Some("Spreadsheet")
    case "xlsx" => Some("Spreadsheet")
    case "ppt" => Some("Presentation")
    case "pptx" => Some("Presentation")
    case "txt" => Some("Text")
    case "md" => Some("Text")
    case "jpg" => Some("Image")
    case "jpeg" => Some("Image")
    case "png" => Some("Image")
    case "gif" => Some("Image")
    case "webp" => Some("Image")
    case "mp3" => Some("Music")
    case "wav" => Some("Music")
    case "flac" => Some("Music")
    case "aac" => Some("Music")
    case "mp4" => Some("Video")
    case "avi" => Some("Video")
    case "mkv" => Some("Video")
    case "mov" => Some("Video")
    case "zip" => Some("Archive")
    case "rar" => Some("Archive")
    case "7z" => Some("Archive")
    case "tar" => Some("Archive")
    case "js" => Some("Code")
    case "css" => Some("Code")
    case "html" => Some("Code")
    case "php" => Some("Code")
    case "py" => Some("Code")
    case _ => None
  }

  /** filelight_getFileType: the mapped label, else the upper-cased extension, else "" (index.php:235-250). */
  function FileType(name: string): string {
    var ext := Lower(Extension(name));
    match TypeLabel(ext)
    case Some(kind) => kind
    case None => if Truthy(ext) then Upper(ext) else ""
  }

  datatype Icon = Icon(icon: string, color: string)

  /** The icon map of index.php:308-338, keyed by lower-case extension. */
  function IconFor(ext: string): Option<Icon> {
    match ext
    case "pdf" => Some(Icon("file-earmark-pdf", "#E74C3C"))
    case "doc" => Some(Icon("file-earmark-word", "#2E86C1"))
    case "docx" => Some(Icon("file-earmark-word", "#2E86C1"))
    case "xls" => Some(Icon("file-earmark-excel", "#27AE60"))
    case "xlsx" => Some(Icon("file-earmark-excel", "#27AE60"))
    case "ppt" => Some(Icon("file-earmark-ppt", "#E67E22"))
    case "pptx" => Some(Icon("file-earmark-ppt", "#E67E22"))
    case "txt" => Some(Icon("file-earmark-text", "#95A5A6"))
    case "md" => Some(Icon("file-earmark-text", "#95A5A6"))
    case "jpg" => Some(Icon("file-earmark-image", "#E74C3C"))
    case "jpeg" => Some(Icon("file-earmark-image", "#E74C3C"))
    case "png" => Some(Icon("file-earmark-image", "#E74C3C"))
    case "gif" => Some(Icon("file-earmark-image", "#E74C3C"))
    case "webp" => Some(Icon("file-earmark-image", "#E74C3C"))
    case "mp3" => Some(Icon("file-earmark-music", "#9B59B6"))
    case "wav" => Some(Icon("file-earmark-music", "#9B59B6"))
    case "flac" => Some(Icon("file-earmark-music", "#9B59B6"))
    case "mp4" => Some(Icon("file-earmark-play", "#F39C12"))
    case "avi" => Some(Icon("file-earmark-play", "#F39C12"))
    case "mkv" => Some(Icon("file-earmark-play", "#F39C12"))
    case "mov" => Some(Icon("file-earmark-play", "#F39C12"))
    case "zip" => Some(Icon("file-earmark-zip", "#34495E"))
    case "rar" => Some(Icon("file-earmark-zip", "#34495E"))
    case "7z" => Some(Icon("file-earmark-zip", "#34495E"))
    case "js" => Some(Icon("file-earmark-code", "#F1C40F"))
    case "css" => Some(Icon("file-earmark-code", "#3498DB"))
    case "html" => Some(Icon("file-earmark-code", "#E67E22"))
    case "php" => Some(Icon("file-earmark-code", "#8E44AD"))
    case "py" => Some(Icon("file-earmark-code", "#3498DB"))
    case _ => None
  }

  const FolderIcon := Icon("folder", "#5DADE2")
  const GenericIcon := Icon("file-earmark", "#7F8C8D")

  /** filelight_getFileIcon (index.php:302-341). */
  function FileIcon(name: string, isDir: bool): Icon {
    if isDir then FolderIcon
    else match IconFor(Lower(Extension(name)))
      case Some(i) => i
      case None => GenericIcon
  }

  /** The icon family a type label calls for: an independent reading of both maps together. */
  function FamilyIcon(kind: string): string {
    match kind
    case "PDF" => "file-earmark-pdf"
    case "Document" => "file-earmark-word"
    case "Spreadsheet" => "file-earmark-excel"
    case "Presentation" => "file-earmark-ppt"
    case "Text" => "file-earmark-text"
    case "Image" => "file-earmark-image"
    case "Music" => "file-earmark-music"
    case "Video" => "file-earmark-play"
    case "Archive" => "file-earmark-zip"
    case "Code" => "file-earmark-code"
    case _ => "file-earmark"
  }

  /**
   * A mapped extension, in any case, shows its label; the type is empty exactly when
   * the extension is missing or falsy ("0").
   */
  lemma FileTypeEmptyIff(name: string)
    ensures TypeLabel(Lower(Extension(name))).Some? ==> FileType(name) == TypeLabel(Lower(Extension(name))).value
    ensures FileType(name) == "" <==> !Truthy(Lower(Extension(name)))
  {
    var ext := Lower(Extension(name));
    if TypeLabel(ext).Some? {
      assert Truthy(ext);
    }
  }

  /**
   * Every extension with its own icon has a type, and the icon is the one of its
   * type's family; the two maps differ only in giving aac and tar no icon of their own.
   */
  lemma IconFollowsType(ext: string)
    ensures IconFor(ext).Some? <==> TypeLabel(ext).Some? && ext != "aac" && ext != "tar"
    ensures IconFor(ext).Some? ==> IconFor(ext).value.icon == FamilyIcon(TypeLabel(ext).value)
  {
  }

  /**
   * A directory shows the folder icon; a file shows the icon of its type's family,
   * or the generic icon when its extension has no type or is aac or tar.
   */
  lemma FileIconCases(name: string, isDir: bool)
    ensures isDir ==> FileIcon(name, isDir) == Icon("folder", "#5DADE2")
    ensures !isDir ==>
      var ext := Lower(Extension(name));
      if TypeLabel(ext).Some? && ext != "aac" && ext != "tar"
      then FileIcon(name, isDir).icon == FamilyIcon(TypeLabel(ext).value)
      else FileIcon(name, isDir) == Icon("file-earmark", "#7F8C8D")
  {
    IconFollowsType(Lower(Extension(name)));
  }

  /** An unmapped extension shows upper-cased as its own type. */
  lemma UnknownExtensionIsUpperCased(name: string)
    requires TypeLabel(Lower(Extension(name))).None? && Truthy(Extension(name))
    ensures FileType(name) == Upper(Extension(name))
  {
    var e := Extension(name);
    assert Lower(e) != "" by { assert |Lower(e)| == |e|; }
    assert Upper(Lower(e)) == Upper(e) by {
      forall k | 0 <= k < |e| ensures UpperChar(LowerChar(e[k])) == UpperChar(e[k]) { }
    }
  }

  /** Lower-casing moves no dot: the last dot of the lower-cased name is the name's own. */
  lemma {:induction false} LastDotOfLower(name: string)
    ensures LastIndexOf(Lower(name), '.') == LastIndexOf(name, '.')
    decreases |name|
  {
    if name != [] {
      var n := |name| - 1;
      var l := Lower(name);
      assert l[n] == LowerChar(name[n]);
      assert l[..n] == Lower(name[..n]);
      LastDotOfLower(name[..n]);
    }
  }

  /** The extension of a lower-cased name is the lower-cased extension. */
  lemma ExtensionOfLower(name: string)
    ensures Extension(Lower(name)) == Lower(Extension(name))
  {
    LastDotOfLower(name);
    var dot := LastIndexOf(name, '.');
    if dot.Some? {
      var i := dot.value;
      var l := Lower(name);
      assert Extension(l) == l[i + 1..];
      var tail, lowered := l[i + 1..], Lower(name[i + 1..]);
      forall k | 0 <= k < |tail| ensures tail[k] == lowered[k] {
        assert tail[k] == l[i + 1 + k];
      }
    }
  }

  /** Type and icon do not depend on the case of the filename. */
  lemma ClassificationIgnoresCase(name: string, isDir: bool)
    ensures FileType(Lower(name)) == FileType(name)
    ensures FileIcon(Lower(name), isDir) == FileIcon(name, isDir)
  {
    ExtensionOfLower(name);
    LowerTwice(Extension(name));
    SameExtensionSameClass(Lower(name), name, isDir);
  }

  /** Lower-casing twice is lower-casing once. */
  lemma LowerTwice(s: string)
    ensures Lower(Lower(s)) == Lower(s)
  {
    assert forall k :: 0 <= k < |s| ==> LowerChar(LowerChar(s[k])) == LowerChar(s[k]);
  }

  /** Type and icon depend on the name only through its lower-cased extension. */
  lemma SameExtensionSameClass(a: string, b: string, isDir: bool)
    requires Lower(Extension(a)) == Lower(Extension(b))
    ensures FileType(a) == FileType(b) && FileIcon(a, isDir) == FileIcon(b, isDir)
  {
  }
}
