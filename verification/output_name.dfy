/** Construction of the output file name (main.py, get_filename_with_extension): the base name,
    a dot and the lower-cased format, which falls back to the default format. */
module OutputName {
  import opened Wrappers
  import opened Text

  /** DEFAULT_OUTPUT_FORMAT. */
  const DefaultOutputFormat: string := "jpeg"

  /** The format actually used: the requested one, or the default when it is absent or empty. */
  function EffectiveFormat(fileFormat: Option<string>): string
  {
    if fileFormat.None? || fileFormat.value == [] then DefaultOutputFormat else fileFormat.value
  }

  /** get_filename_with_extension: the base name is kept as it is, followed by one `.` and the
      lower-cased format. */
  function GetFilenameWithExtension(filename: string, fileFormat: Option<string>): (r: string)
    ensures |r| == |filename| + 1 + |EffectiveFormat(fileFormat)|
    ensures r[..|filename|] == filename && r[|filename|] == '.'
    ensures r[|filename| + 1..] == Lower(EffectiveFormat(fileFormat))
    ensures forall i :: |filename| < i < |r| ==> !IsUpper(r[i])
  {
    filename + "." + Lower(EffectiveFormat(fileFormat))
  }

  /** When the format holds no `.`, the extension after the last dot of the output name is
      exactly the lower-cased format, whatever dots the base name holds. */
  lemma OutputExtensionIsFormat(filename: string, fileFormat: Option<string>)
    requires '.' !in EffectiveFormat(fileFormat)
    ensures LastDotExtension(GetFilenameWithExtension(filename, fileFormat))
            == Some(Lower(EffectiveFormat(fileFormat)))
  {
    var f := EffectiveFormat(fileFormat);
    var r := GetFilenameWithExtension(filename, fileFormat);
    assert '.' !in Lower(f) by {
      forall i | 0 <= i < |f| ensures Lower(f)[i] != '.' {
        assert f[i] != '.';
      }
    }
    assert r[|r| - |Lower(f)| - 1..] == "." + Lower(f);
    LastDotExtensionOfSuffix(r, Lower(f));
  }

  /** The case of the requested format does not matter. */
  lemma FormatCaseInsensitive(filename: string, fileFormat: string)
    ensures GetFilenameWithExtension(filename, Some(fileFormat))
         == GetFilenameWithExtension(filename, Some(Lower(fileFormat)))
  {
    LowerIdempotent(fileFormat);
  }

  /** An absent and an empty format both fall back to `.jpeg`. */
  lemma DefaultFormatUsed(filename: string)
    ensures GetFilenameWithExtension(filename, None) == filename + ".jpeg"
    ensures GetFilenameWithExtension(filename, Some("")) == filename + ".jpeg"
  {
    LowerOfLowerCase(DefaultOutputFormat);
  }

  /** Worked examples: ("photo", "") gives "photo.jpeg" and ("photo", "PNG") gives "photo.png". */
  lemma FilenameExamples()
    ensures GetFilenameWithExtension("photo", Some("")) == "photo.jpeg"
    ensures GetFilenameWithExtension("photo", Some("PNG")) == "photo.png"
  {
    DefaultFormatUsed("photo");
    assert Lower("PNG") == "png";
  }
}
