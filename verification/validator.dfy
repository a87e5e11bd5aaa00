/** Validation of a task's input file (main.py, file_exist_and_is_valid). The filesystem query
    `Path(file_path).is_file()` is replaced by the set of paths that name existing regular
    files, supplied by the caller. */
module Validator {
  import opened Wrappers
  import opened Text

  /** The extension test of the source: the lower-cased path ends in `.jpg` or `.jpeg`. */
  predicate HasJpegSuffix(filePath: string)
  {
    EndsWith(Lower(filePath), ".jpg") || EndsWith(Lower(filePath), ".jpeg")
  }

  /** file_exist_and_is_valid: an empty path, a path without a JPEG extension and a path that
      is not an existing file are rejected; every other path is accepted. */
  function FileExistAndIsValid(filePath: string, existingFiles: set<string>): (r: bool)
    ensures r ==> filePath != [] && filePath in existingFiles
    ensures !HasJpegSuffix(filePath) ==> !r
    ensures HasJpegSuffix(filePath) ==> (r <==> filePath in existingFiles)
  {
    if filePath == [] then
      false
    else if !(EndsWith(Lower(filePath), ".jpg") || EndsWith(Lower(filePath), ".jpeg")) then
      false
    else
      filePath in existingFiles
  }

  /** An independent reading of the validator: a path is accepted exactly when the text after
      its last dot is `jpg` or `jpeg` in any mix of cases, and it names an existing file. The
      empty-path test is subsumed. */
  lemma {:induction false} ValidIffJpegExtensionAndExists(filePath: string, existingFiles: set<string>)
    ensures FileExistAndIsValid(filePath, existingFiles) <==>
            (LastDotExtension(Lower(filePath)) == Some("jpg") ||
             LastDotExtension(Lower(filePath)) == Some("jpeg")) &&
            filePath in existingFiles
  {
    var lowered := Lower(filePath);
    assert "." + "jpg" == ".jpg" && "." + "jpeg" == ".jpeg";
    EndsWithDotIffExtension(lowered, "jpg");
    EndsWithDotIffExtension(lowered, "jpeg");
    assert HasJpegSuffix(filePath) <==>
           LastDotExtension(lowered) == Some("jpg") || LastDotExtension(lowered) == Some("jpeg");
  }

  /** Adding files to the filesystem never turns an accepted path into a rejected one. */
  lemma ValidMonotoneInFiles(filePath: string, before: set<string>, after: set<string>)
    requires before <= after
    requires FileExistAndIsValid(filePath, before)
    ensures FileExistAndIsValid(filePath, after)
  {
  }

  /** Worked examples: "image.png" is rejected whether or not it exists; "missing.jpeg" is
      accepted exactly when it exists; "LOGO.JPG" is accepted when it exists. */
  lemma ValidatorExamples(existingFiles: set<string>)
    ensures !FileExistAndIsValid("image.png", existingFiles)
    ensures FileExistAndIsValid("missing.jpeg", existingFiles) <==> "missing.jpeg" in existingFiles
    ensures "LOGO.JPG" in existingFiles ==> FileExistAndIsValid("LOGO.JPG", existingFiles)
  {
    PngIsNotJpeg();
    JpegSuffixOfMissing();
    UpperCaseJpgSuffix();
  }

  lemma PngIsNotJpeg()
    ensures !HasJpegSuffix("image.png")
  {
    assert Lower("image.png") == "image.png";
  }

  lemma JpegSuffixOfMissing()
    ensures HasJpegSuffix("missing.jpeg")
  {
    assert Lower("missing.jpeg") == "missing.jpeg";
  }

  lemma UpperCaseJpgSuffix()
    ensures HasJpegSuffix("LOGO.JPG")
  {
    var lowered := Lower("LOGO.JPG");
    assert lowered[4] == '.' && lowered[5] == 'j' && lowered[6] == 'p' && lowered[7] == 'g';
    assert lowered[4..] == ".jpg";
  }
}
