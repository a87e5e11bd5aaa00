/** The argument list of one conversion (main.py, convert_image): the program and its
    subcommand, the input path, a resize option when the size is not the sentinel, and the
    output file name. Running the command is outside the model: the source swallows every
    exception it raises, so the call always returns normally. */
module Command {
  import opened Wrappers
  import ImageSize
  import Shell

  const Program: string := "magick"
  const Subcommand: string := "convert"
  const ResizeFlag: string := "-resize"

  /** The argument list for converting `inputImageFile` to `outputImageFilename` at
      `outputSize`. The contract determines the list completely. */
  function CommandLine(inputImageFile: string, outputSize: string, outputImageFilename: string)
    : (r: seq<string>)
    ensures |r| >= 4 && r[0] == Program && r[1] == Subcommand && r[2] == inputImageFile
    ensures r[|r| - 1] == outputImageFilename
    ensures outputSize == ImageSize.SameOutputSize <==> |r| == 4
    ensures outputSize != ImageSize.SameOutputSize <==> |r| == 6
    ensures |r| == 6 ==> r[3] == ResizeFlag && r[4] == outputSize
  {
    [Program, Subcommand, inputImageFile]
    + (if outputSize != ImageSize.SameOutputSize then [ResizeFlag, outputSize] else [])
    + [outputImageFilename]
  }

  /** convert_image: grows the argument list in place, then joins it into the command string
      handed to the shell. The join quotes every argument (the source joins with bare spaces,
      which splits arguments holding a space), so the shell reads back exactly the list. */
  method ConvertImage(inputImageFile: string, outputSize: string, outputImageFilename: string)
    returns (cmd: seq<string>, shellCommand: string)
    ensures cmd == CommandLine(inputImageFile, outputSize, outputImageFilename)
    ensures Shell.Words(shellCommand) == Some(cmd)
  {
    var cmdArgs := [inputImageFile];
    if outputSize != ImageSize.SameOutputSize {
      cmdArgs := cmdArgs + [ResizeFlag, outputSize];
    }
    cmd := [Program, Subcommand] + cmdArgs + [outputImageFilename];
    shellCommand := Shell.JoinQuoted(cmd);
    Shell.JoinQuotedRoundTrip(cmd);
  }
}
