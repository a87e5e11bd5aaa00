/** The batch orchestrator (main.py, process_single_image and process_images_from_json_file):
    tasks are walked in file order; a task whose input file passes validation is converted and
    counted, any other task is skipped and counted as failed. The commands handed to the
    runner are returned as a trace, in the order they are run. */
module Batch {
  import opened Wrappers
  import opened Text
  import ImageSize
  import OutputName
  import Validator
  import Command
  import Shell

  /** One element of the task file, with all four keys present. The size and the format may
      be null in the file, which the source treats like an empty string. */
  datatype Task = Task(
    inputImageFile: string,
    outputImageSize: Option<string>,
    outputImageFileName: string,
    outputImageFormat: Option<string>)

  /** The totals reported in the final summary line, with the commands that were run. */
  datatype BatchSummary = BatchSummary(
    conversionCount: nat,
    failedConversions: nat,
    commands: seq<seq<string>>)

  predicate IsValidTask(t: Task, existingFiles: set<string>)
  {
    Validator.FileExistAndIsValid(t.inputImageFile, existingFiles)
  }

  /** The command run for a task: its normalised size and its output file name. */
  function TaskCommand(t: Task): seq<string>
  {
    Command.CommandLine(
      t.inputImageFile,
      ImageSize.GetImageSize(t.outputImageSize),
      OutputName.GetFilenameWithExtension(t.outputImageFileName, t.outputImageFormat))
  }

  /** The tasks that pass validation, in file order. */
  function ValidTasks(tasks: seq<Task>, existingFiles: set<string>): (r: seq<Task>)
    ensures |r| <= |tasks|
    ensures forall i :: 0 <= i < |r| ==> IsValidTask(r[i], existingFiles)
    decreases |tasks|
  {
    if tasks == [] then []
    else
      var init := ValidTasks(tasks[..|tasks| - 1], existingFiles);
      var last := tasks[|tasks| - 1];
      if IsValidTask(last, existingFiles) then init + [last] else init
  }

  /** The number of tasks that fail validation. */
  function CountInvalid(tasks: seq<Task>, existingFiles: set<string>): nat
    decreases |tasks|
  {
    if tasks == [] then 0
    else CountInvalid(tasks[1..], existingFiles)
         + (if IsValidTask(tasks[0], existingFiles) then 0 else 1)
  }

  /** The commands of a sequence of tasks, in order. */
  function Commands(tasks: seq<Task>): seq<seq<string>>
    decreases |tasks|
  {
    if tasks == [] then [] else Commands(tasks[..|tasks| - 1]) + [TaskCommand(tasks[|tasks| - 1])]
  }

  /** The converted tasks are exactly the tasks of the batch that pass validation. */
  lemma {:induction false} ValidTasksMembers(tasks: seq<Task>, existingFiles: set<string>, t: Task)
    ensures t in ValidTasks(tasks, existingFiles) <==> t in tasks && IsValidTask(t, existingFiles)
    decreases |tasks|
  {
    if tasks != [] {
      var init := tasks[..|tasks| - 1];
      ValidTasksMembers(init, existingFiles, t);
      assert tasks == init + [tasks[|tasks| - 1]];
    }
  }

  /** One command per task, each built from the task at the same position. */
  lemma {:induction false} CommandsAt(tasks: seq<Task>, i: nat)
    requires i < |tasks|
    ensures |Commands(tasks)| == |tasks| && Commands(tasks)[i] == TaskCommand(tasks[i])
    decreases |tasks|
  {
    CommandsLength(tasks);
    if i < |tasks| - 1 {
      CommandsAt(tasks[..|tasks| - 1], i);
    }
  }

  lemma {:induction false} CommandsLength(tasks: seq<Task>)
    ensures |Commands(tasks)| == |tasks|
    decreases |tasks|
  {
    if tasks != [] {
      CommandsLength(tasks[..|tasks| - 1]);
    }
  }

  /** One more task at the end adds its command at the end. */
  lemma CommandsSnoc(tasks: seq<Task>, t: Task)
    ensures Commands(tasks + [t]) == Commands(tasks) + [TaskCommand(t)]
  {
    assert (tasks + [t])[..|tasks|] == tasks;
  }

  /** Looking at one more task of the batch adds it, and its command, exactly when it is
      valid. */
  lemma ValidTasksStep(tasks: seq<Task>, i: nat, existingFiles: set<string>)
    requires i < |tasks|
    ensures var before := ValidTasks(tasks[..i], existingFiles);
            var after := ValidTasks(tasks[..i + 1], existingFiles);
            if IsValidTask(tasks[i], existingFiles) then
              after == before + [tasks[i]] && Commands(after) == Commands(before) + [TaskCommand(tasks[i])]
            else
              after == before
  {
    var prefix := tasks[..i + 1];
    assert prefix[..i] == tasks[..i];
    assert prefix[i] == tasks[i];
    if IsValidTask(tasks[i], existingFiles) {
      CommandsSnoc(ValidTasks(tasks[..i], existingFiles), tasks[i]);
    }
  }

  /** Validation splits a batch in file order: the valid tasks of a concatenation are those of
      its first part followed by those of its second part. */
  lemma {:induction false} ValidTasksAppend(a: seq<Task>, b: seq<Task>, existingFiles: set<string>)
    ensures ValidTasks(a + b, existingFiles) == ValidTasks(a, existingFiles) + ValidTasks(b, existingFiles)
    decreases |b|
  {
    if b == [] {
      assert a + b == a;
    } else {
      var b' := b[..|b| - 1];
      assert (a + b)[..|a + b| - 1] == a + b';
      ValidTasksAppend(a, b', existingFiles);
    }
  }

  /** Every task is either converted or failed. */
  lemma {:induction false} ValidPlusInvalid(tasks: seq<Task>, existingFiles: set<string>)
    ensures |ValidTasks(tasks, existingFiles)| + CountInvalid(tasks, existingFiles) == |tasks|
    decreases |tasks|
  {
    if tasks != [] {
      ValidPlusInvalid(tasks[1..], existingFiles);
      ValidTasksAppend([tasks[0]], tasks[1..], existingFiles);
      assert [tasks[0]] + tasks[1..] == tasks;
      assert ValidTasks([tasks[0]], existingFiles)
             == if IsValidTask(tasks[0], existingFiles) then [tasks[0]] else [];
    }
  }

  predicate AllValid(tasks: seq<Task>, existingFiles: set<string>)
  {
    forall i :: 0 <= i < |tasks| ==> IsValidTask(tasks[i], existingFiles)
  }

  /** A batch with one more task at the end is all valid exactly when the batch is and the
      new task is. */
  lemma AllValidSnoc(tasks: seq<Task>, t: Task, existingFiles: set<string>)
    ensures AllValid(tasks + [t], existingFiles) <==> AllValid(tasks, existingFiles) && IsValidTask(t, existingFiles)
  {
    var longer := tasks + [t];
    if AllValid(longer, existingFiles) {
      forall i | 0 <= i < |tasks| ensures IsValidTask(tasks[i], existingFiles) {
        assert longer[i] == tasks[i];
      }
      assert longer[|tasks|] == t;
    }
  }

  /** All tasks are converted exactly when all pass validation. */
  lemma {:induction false} AllConvertedIffAllValid(tasks: seq<Task>, existingFiles: set<string>)
    ensures |ValidTasks(tasks, existingFiles)| == |tasks| <==> AllValid(tasks, existingFiles)
    decreases |tasks|
  {
    if tasks != [] {
      var init, last := tasks[..|tasks| - 1], tasks[|tasks| - 1];
      assert tasks == init + [last];
      AllConvertedIffAllValid(init, existingFiles);
      AllValidSnoc(init, last, existingFiles);
    }
  }

  /** process_single_image: normalises the size, builds the output name, and converts. */
  method ProcessSingleImage(t: Task) returns (cmd: seq<string>)
    ensures cmd == Command.CommandLine(
      t.inputImageFile,
      ImageSize.GetImageSize(t.outputImageSize),
      OutputName.GetFilenameWithExtension(t.outputImageFileName, t.outputImageFormat))
  {
    var outputImageSize := ImageSize.GetImageSize(t.outputImageSize);
    var outputImageFilename :=
      OutputName.GetFilenameWithExtension(t.outputImageFileName, t.outputImageFormat);
    var shellCommand;
    cmd, shellCommand := Command.ConvertImage(t.inputImageFile, outputImageSize, outputImageFilename);
  }

  /** One iteration of the loop of process_images_from_json_file: a task whose input file
      passes validation is converted, any other task is skipped. */
  method ProcessTask(t: Task, existingFiles: set<string>) returns (converted: bool, cmd: seq<string>)
    ensures converted == IsValidTask(t, existingFiles)
    ensures converted ==> cmd == TaskCommand(t)
  {
    converted := Validator.FileExistAndIsValid(t.inputImageFile, existingFiles);
    cmd := [];
    if converted {
      cmd := ProcessSingleImage(t);
    }
  }

  /** The loop of process_images_from_json_file: converts the valid tasks in file order,
      counts them, and reports the others as failed. */
  method ProcessImages(tasks: seq<Task>, existingFiles: set<string>)
    returns (conversionCount: nat, failedConversions: int, commands: seq<seq<string>>)
    ensures conversionCount == |ValidTasks(tasks, existingFiles)| <= |tasks|
    ensures failedConversions == CountInvalid(tasks, existingFiles)
    ensures conversionCount + failedConversions == |tasks|
    ensures commands == Commands(ValidTasks(tasks, existingFiles))
  {
    conversionCount := 0;
    commands := [];
    ghost var converted: seq<Task> := [];
    for i := 0 to |tasks|
      invariant converted == ValidTasks(tasks[..i], existingFiles)
      invariant conversionCount == |converted|
      invariant commands == Commands(converted)
    {
      ValidTasksStep(tasks, i, existingFiles);
      var ok, cmd := ProcessTask(tasks[i], existingFiles);
      if ok {
        CommandsSnoc(converted, tasks[i]);
        commands := commands + [cmd];
        conversionCount := conversionCount + 1;
        converted := converted + [tasks[i]];
      }
    }
    assert tasks[..|tasks|] == tasks;
    failedConversions := |tasks| - conversionCount;
    ValidPlusInvalid(tasks, existingFiles);
  }

  /** process_images_from_json_file: nothing happens for an empty file name, and nothing is
      reported when the task file cannot be loaded (the source exits the process). `loaded`
      is what the loader produced. */
  method ProcessImagesFromJsonFile(
    jsonFilename: string, loaded: Option<seq<Task>>, existingFiles: set<string>)
    returns (summary: Option<BatchSummary>)
    ensures summary.Some? <==> jsonFilename != [] && loaded.Some?
    ensures summary.Some? ==>
      summary.value.conversionCount == |ValidTasks(loaded.value, existingFiles)| &&
      summary.value.failedConversions == CountInvalid(loaded.value, existingFiles) &&
      summary.value.commands == Commands(ValidTasks(loaded.value, existingFiles))
  {
    if jsonFilename == [] {
      return None;
    }
    if loaded.None? {
      return None;
    }
    var conversionCount, failedConversions, commands := ProcessImages(loaded.value, existingFiles);
    summary := Some(BatchSummary(conversionCount, failedConversions, commands));
  }

  /** The task of the worked examples below, whose input "logo.jpeg" exists. */
  function LogoTask(): Task { Task("logo.jpeg", Some("100%"), "out", Some("png")) }

  /** A task whose input "missing.jpeg" does not exist. */
  function MissingTask(): Task { Task("missing.jpeg", Some("50%"), "other", None) }

  lemma LogoTaskIsValid()
    ensures IsValidTask(LogoTask(), {"logo.jpeg"})
  {
    var lowered := Lower("logo.jpeg");
    assert lowered[4] == '.' && lowered[5] == 'j' && lowered[6] == 'p' && lowered[7] == 'e' && lowered[8] == 'g';
    assert lowered[4..] == ".jpeg";
  }

  /** A valid task at size "100%" to "out" as "png" runs one command, with no resize option,
      writing "out.png"; the batch reports one converted and none failed. */
  lemma SingleValidTaskExample()
    ensures ValidTasks([LogoTask()], {"logo.jpeg"}) == [LogoTask()]
    ensures CountInvalid([LogoTask()], {"logo.jpeg"}) == 0
    ensures Commands(ValidTasks([LogoTask()], {"logo.jpeg"}))
            == [["magick", "convert", "logo.jpeg", "out.png"]]
  {
    LogoTaskIsValid();
    LogoTaskCommand();
    assert [LogoTask()][..0] == [];
  }

  /** The logo task is converted at the sentinel size, so without a resize option, to
      "out.png". */
  lemma LogoTaskCommand()
    ensures TaskCommand(LogoTask()) == ["magick", "convert", "logo.jpeg", "out.png"]
  {
    ImageSize.GetImageSizeFixedPoints("100%");
    ImageSize.SentinelIsNormalized();
    assert Lower("png") == "png";
    assert OutputName.GetFilenameWithExtension("out", Some("png")) == "out.png";
  }

  /** A task whose input is missing is failed and runs no command. */
  lemma MissingTaskExample()
    ensures ValidTasks([MissingTask()], {"logo.jpeg"}) == []
    ensures CountInvalid([MissingTask()], {"logo.jpeg"}) == 1
    ensures Commands(ValidTasks([MissingTask()], {"logo.jpeg"})) == []
  {
    assert !IsValidTask(MissingTask(), {"logo.jpeg"});
  }

  /** A valid and an invalid task give one converted and one failed, in file order. */
  lemma MixedBatchExample()
    ensures ValidTasks([LogoTask(), MissingTask()], {"logo.jpeg"}) == [LogoTask()]
    ensures CountInvalid([LogoTask(), MissingTask()], {"logo.jpeg"}) == 1
  {
    LogoTaskIsValid();
    MissingTaskExample();
    ValidTasksAppend([LogoTask()], [MissingTask()], {"logo.jpeg"});
    assert [LogoTask()] + [MissingTask()] == [LogoTask(), MissingTask()];
    assert [LogoTask(), MissingTask()][1..] == [MissingTask()];
  }

  /** An input path holding a space passes validation, and the bare-space join of the source
      hands its command to the shell as five words instead of four; the quoted join hands over
      the four arguments. */
  lemma SpacedPathExample()
    ensures var t := Task("my photo.jpg", None, "out", Some("png"));
            && IsValidTask(t, {"my photo.jpg"})
            && Shell.Words(Shell.JoinWithSpaces(TaskCommand(t))) != Some(TaskCommand(t))
            && Shell.Words(Shell.JoinQuoted(TaskCommand(t))) == Some(TaskCommand(t))
  {
    var t := Task("my photo.jpg", None, "out", Some("png"));
    var lowered := Lower("my photo.jpg");
    assert lowered[8] == '.' && lowered[9] == 'j' && lowered[10] == 'p' && lowered[11] == 'g';
    assert lowered[8..] == ".jpg";
    assert Lower("png") == "png";
    assert OutputName.GetFilenameWithExtension("out", Some("png")) == "out.png";
    assert TaskCommand(t) == ["magick", "convert", "my photo.jpg", "out.png"];
    Shell.JoinWithSpacesSplitsPaths();
    Shell.JoinQuotedRoundTrip(TaskCommand(t));
  }
}
