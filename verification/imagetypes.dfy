/**
 * The image-type helpers of src/SvgLoader.ts: the extension of a path, the MIME type of an
 * extension, and whether a path names an image the loader accepts.
 */
module ImageTypes {
  import opened Wrappers
  import opened Strings

  /** The extensions the loader accepts, in the order of `isSupportedImageType`'s list. */
  const Supported: seq<string> := ["svg", "png", "jpg", "jpeg", "webp", "gif"]

  /** The MIME type of each known extension. */
  const MimeTypes: map<string, string> := map[
    "svg" := "image/svg+xml",
    "png" := "image/png",
    "jpg" := "image/jpeg",
    "jpeg" := "image/jpeg",
    "webp" := "image/webp",
    "gif" := "image/gif"
  ]

  /** The answer for an extension the table does not know. */
  const Fallback: string := "image/*"

  /** `getMimeType`: the extension is looked up lower-cased; an unknown one gets the fallback. */
  function MimeType(extension: string): (r: string)
    ensures ToLower(extension) in MimeTypes ==> r == MimeTypes[ToLower(extension)]
    ensures r == Fallback <==> ToLower(extension) !in Supported
  {
    var key := ToLower(extension);
    if key in MimeTypes then MimeTypes[key] else Fallback
  }

  /** `getFileExtension`: the last `.`-separated piece of the path, lower-cased. The `|| ""` of the
      source only replaces an empty string by itself, and `pop` never finds an empty list. */
  function FileExtension(path: string): (r: string)
    ensures '.' !in r
    ensures ToLower(r) == r
  {
    var pieces := Split(path, '.');
    var last := ToLower(pieces[|pieces| - 1]);
    ToLowerIdempotent(pieces[|pieces| - 1]);
    last
  }

  /** `isSupportedImageType`: a path is accepted exactly when its extension has a MIME type of
      its own, which is then an image type. */
  function IsSupported(path: string): (r: bool)
    ensures r <==> MimeType(FileExtension(path)) != Fallback
    ensures r ==> StartsWith(MimeType(FileExtension(path)), "image/")
    ensures r <==> FileExtension(path) in Supported
  {
    FileExtension(path) in Supported
  }

  /** The extension is the text after the last dot, or the whole path when there is no dot. */
  lemma FileExtensionAfterLastDot(path: string)
    ensures LastIndexUpTo(path, '.', |path| - 1).None? ==> FileExtension(path) == ToLower(path)
    ensures LastIndexUpTo(path, '.', |path| - 1).Some? ==>
      FileExtension(path) == ToLower(path[LastIndexUpTo(path, '.', |path| - 1).value + 1..])
  {
    var last := LastIndexUpTo(path, '.', |path| - 1);
    assert last.None? ==> FileExtension(path) == ToLower(path) by {
      if last.None? { ExtensionWithoutDot(path); }
    }
    assert last.Some? ==> FileExtension(path) == ToLower(path[last.value + 1..]) by {
      if last.Some? { ExtensionAfterDot(path, last.value); }
    }
  }

  lemma ExtensionAfterDot(path: string, k: nat)
    requires LastIndexUpTo(path, '.', |path| - 1) == Some(k)
    ensures FileExtension(path) == ToLower(path[k + 1..])
  {
    var tail := path[k + 1..];
    assert LastPiece(path) == tail by { SplitLastAt(path, '.', k); }
    assert FileExtension(path) == ToLower(tail) by { ExtensionOfLastPiece(path, LastPiece(path), tail); }
  }

  lemma ExtensionWithoutDot(path: string)
    requires LastIndexUpTo(path, '.', |path| - 1).None?
    ensures FileExtension(path) == ToLower(path)
  {
    SplitWithout(path, '.');
    ExtensionOfLastPiece(path, LastPiece(path), path);
  }

  /** The last `.`-separated piece of a path. */
  function LastPiece(path: string): string {
    var pieces := Split(path, '.');
    pieces[|pieces| - 1]
  }

  /** The extension is the lower-cased last piece. */
  lemma ExtensionOfLastPiece(path: string, piece: string, tail: string)
    requires piece == LastPiece(path) && piece == tail
    ensures FileExtension(path) == ToLower(tail)
  {
  }

  /** A path ending in a dot has the empty extension. */
  lemma TrailingDotIsEmpty(path: string)
    requires |path| > 0 && path[|path| - 1] == '.'
    ensures FileExtension(path) == ""
  {
    FileExtensionAfterLastDot(path);
    assert LastIndexUpTo(path, '.', |path| - 1) == Some(|path| - 1);
  }

  /** The table and the list agree: an extension has its own MIME type exactly when it is supported. */
  lemma MimeTypesCoverSupported()
    ensures forall e :: e in MimeTypes <==> e in Supported
  {
  }

  /** Letter case does not matter to the MIME type. */
  lemma MimeTypeIgnoresCase(extension: string)
    ensures MimeType(ToLower(extension)) == MimeType(extension)
  {
    ToLowerIdempotent(extension);
  }

  /** A supported path always gets its own MIME type, never the fallback, and an unsupported one
      always gets the fallback. */
  lemma SupportedHasMimeType(path: string)
    ensures IsSupported(path) <==> MimeType(FileExtension(path)) != Fallback
    ensures IsSupported(path) ==> StartsWith(MimeType(FileExtension(path)), "image/")
  {
  }

  /** An upper-case extension is accepted: `A.PNG` is a PNG image. */
  lemma UpperCasePng(path: string)
    requires path == "A.PNG"
    ensures IsSupported(path) && MimeType(FileExtension(path)) == "image/png"
  {
    FileExtensionAfterLastDot(path);
    assert LastIndexUpTo(path, '.', |path| - 1) == Some(1);
    assert path[2..] == "PNG";
    assert ToLower("PNG") == "png";
  }
}
