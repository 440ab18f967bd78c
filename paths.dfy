/**
  The string helpers of the converter: splitting a file's base name into its name
  and extension, and recognising the output format named on the command line.
 */
module Paths {
  import opened Wrappers

  // ---------------------------------------------------------------------------
  // Name and extension.

  /** The position of the last c in s, as strrchr finds it; None when s has no c. */
  function LastIndexOf(s: string, c: char): (r: Option<nat>)
    ensures r.None? <==> forall k :: 0 <= k < |s| ==> s[k] != c
    ensures r.Some? ==> r.value < |s| && s[r.value] == c && forall k :: r.value < k < |s| ==> s[k] != c
  {
    if |s| == 0 then None
    else if s[|s| - 1] == c then Some(|s| - 1)
    else LastIndexOf(s[..|s| - 1], c)
  }

  /** A base name taken apart: the name without its extension, and the extension with its dot. */
  datatype NameParts = NameParts(filename: string, extension: string)

  /**
    Splits a base name at its last '.', keeping the dot with the extension. A dot
    that is the first character (a hidden file such as ".profile") does not start
    an extension, and neither does a name without a dot: then the extension is
    empty and the name is the whole base name.
   */
  function SplitName(basename: string): (parts: NameParts)
    ensures parts.filename + parts.extension == basename
    ensures parts.extension == [] <==> forall k :: 0 < k < |basename| ==> basename[k] != '.'
    ensures parts.extension != [] ==>
      |parts.filename| > 0 && parts.extension[0] == '.' &&
      forall k :: 0 < k < |parts.extension| ==> parts.extension[k] != '.'
  {
    match LastIndexOf(basename, '.')
    case Some(dot) =>
      if dot != 0 then NameParts(basename[..dot], basename[dot..])
      else NameParts(basename, [])
    case None => NameParts(basename, [])
  }

  /** Splitting a name with an extension and putting it back together gives the same split. */
  lemma SplitJoin(filename: string, extension: string)
    requires |filename| > 0 && |extension| > 0 && extension[0] == '.'
    requires forall k :: 0 < k < |extension| ==> extension[k] != '.'
    ensures SplitName(filename + extension) == NameParts(filename, extension)
  {
    var s := filename + extension;
    var dot := |filename|;
    assert s[dot] == '.';
    assert forall k :: dot < k < |s| ==> s[k] == extension[k - dot];
    assert s[..dot] == filename && s[dot..] == extension;
  }

  // ---------------------------------------------------------------------------
  // Output formats.

  /** ASCII upper-case letters to lower case, as tolower does in the C locale. */
  function ToLower(c: char): char
  {
    if 'A' <= c <= 'Z' then (c as int + 32) as char else c
  }

  /** A string in lower case. */
  function Lower(s: string): string
  {
    seq(|s|, i requires 0 <= i < |s| => ToLower(s[i]))
  }

  /** strcasecmp(a, b) == 0: the strings agree character by character, ignoring case, and end together. */
  function EqualsIgnoreCase(a: string, b: string): (r: bool)
    ensures r <==> Lower(a) == Lower(b)
  {
    if |a| == 0 || |b| == 0 then |a| == |b|
    else
      var r := ToLower(a[0]) == ToLower(b[0]) && EqualsIgnoreCase(a[1..], b[1..]);
      assert Lower(a) == [ToLower(a[0])] + Lower(a[1..]);
      assert Lower(b) == [ToLower(b[0])] + Lower(b[1..]);
      assert Lower(a) == Lower(b) ==> Lower(a)[0] == Lower(b)[0] && Lower(a)[1..] == Lower(b)[1..];
      r
  }

  /** The output formats. */
  datatype ImageFormat = Png | Bmp | Tga | Jpg

  /** The name each format is given by on the command line. */
  function FormatName(f: ImageFormat): string
  {
    match f
    case Png => "png"
    case Bmp => "bmp"
    case Tga => "tga"
    case Jpg => "jpg"
  }

  /** The accepted format names, in the order they are tried. */
  const ValidFormats: seq<string> := ["png", "bmp", "tga", "jpg"]

  /** Whether format equals, ignoring case, one of names: the walk over the name list. */
  function MatchesAny(format: string, names: seq<string>): (r: bool)
    ensures r <==> exists i :: 0 <= i < |names| && EqualsIgnoreCase(format, names[i])
  {
    if |names| == 0 then false
    else EqualsIgnoreCase(format, names[0]) || MatchesAny(format, names[1..])
  }

  /** Whether a format name is accepted. */
  function IsValidFormat(format: string): bool
  {
    MatchesAny(format, ValidFormats)
  }

  /** The format a name selects; a name that is none of them selects PNG. */
  function FormatType(format: string): ImageFormat
  {
    if EqualsIgnoreCase(format, "png") then Png
    else if EqualsIgnoreCase(format, "bmp") then Bmp
    else if EqualsIgnoreCase(format, "tga") then Tga
    else if EqualsIgnoreCase(format, "jpg") then Jpg
    else Png
  }

  lemma LowerNames()
    ensures Lower("png") == "png" && Lower("bmp") == "bmp" && Lower("tga") == "tga" && Lower("jpg") == "jpg"
  {
  }

  /** A name is accepted exactly when in lower case it is one of png, bmp, tga and jpg. */
  lemma ValidFormatLower(format: string)
    ensures IsValidFormat(format) <==> Lower(format) in {"png", "bmp", "tga", "jpg"}
  {
    LowerNames();
    assert ValidFormats[0] == "png" && ValidFormats[1] == "bmp" && ValidFormats[2] == "tga" && ValidFormats[3] == "jpg";
  }

  /** An accepted name selects the format it names, in whatever case it was written. */
  lemma ValidFormatSelects(format: string)
    requires IsValidFormat(format)
    ensures Lower(format) == FormatName(FormatType(format))
  {
    ValidFormatLower(format);
    LowerNames();
  }

  /** Each format's own name, and any spelling of it in other cases, selects that format. */
  lemma FormatTypeOfName(format: string, f: ImageFormat)
    requires EqualsIgnoreCase(format, FormatName(f))
    ensures IsValidFormat(format) && FormatType(format) == f
  {
    LowerNames();
    ValidFormatLower(format);
  }

  /** A name that is not accepted falls back to PNG. */
  lemma InvalidFormatIsPng(format: string)
    requires !IsValidFormat(format)
    ensures FormatType(format) == Png
  {
    ValidFormatLower(format);
    LowerNames();
  }
}
