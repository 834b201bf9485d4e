/** `batch_convert_heic`: check the input directory, create the output
    directory, then convert every listed entry whose name ends in ".heic" (in
    any case), deriving its input and output paths. The filesystem enters as
    the set of paths that exist and the listing of the input directory. */
module Batch {
  import opened Wrappers
  import opened Text
  import opened Paths
  import opened Converter

  /** The parameters of one batch run. */
  datatype Job = Job(inputDirectory: string, outputDirectory: string, format: string,
                     width: Option<int>, height: Option<int>)

  /** One attempted conversion of the batch. */
  datatype Record = Record(inputPath: string, outputPath: string, resizeCalled: bool, outcome: Outcome)

  /** `filename.lower().endswith('.heic')`. */
  predicate IsHeic(name: string)
    ensures IsHeic(name) ==> |name| >= 5
  {
    EndsWith(Lower(name), ".heic")
  }

  /** `f"{os.path.splitext(filename)[0]}.{output_format}"`: the format is used
      as given, not lower-cased. */
  function OutputName(name: string, format: string): (r: string)
    // The name ends in "." and the format as given, after a prefix of the entry name.
    ensures EndsWith(r, "." + format)
    ensures |r| - |format| - 1 <= |name| && r[..|r| - |format| - 1] == name[..|r| - |format| - 1]
  {
    SplitExt(name).0 + "." + format
  }

  /** The entries of a listing the batch converts, in listing order. */
  function Selected(listing: seq<string>): (r: seq<string>)
    ensures |r| <= |listing|
    ensures forall name :: name in r ==> name in listing && IsHeic(name)
  {
    if listing == [] then []
    else
      var name := listing[|listing| - 1];
      var init := Selected(listing[..|listing| - 1]);
      if IsHeic(name) then init + [name] else init
  }

  /** The body of the loop for one selected entry. */
  function Entry(codec: Codec, job: Job, name: string): (r: Result<Record, Error>)
    ensures r.Failure? <==> !ValidFormat(job.format)
    ensures r.Success? ==>
      && r.value.inputPath == Join(job.inputDirectory, name)
      && r.value.outputPath == Join(job.outputDirectory, OutputName(name, job.format))
    // The record holds what converting between those paths with the job's settings gives.
    ensures r.Success? ==>
      Conversion(codec, r.value.inputPath, r.value.outputPath, job.format, job.width, job.height)
        == Success(Attempt(r.value.resizeCalled, r.value.outcome))
  {
    var inputPath := Join(job.inputDirectory, name);
    var outputPath := Join(job.outputDirectory, OutputName(name, job.format));
    match Conversion(codec, inputPath, outputPath, job.format, job.width, job.height)
    case Failure(e) => Failure(e)
    case Success(a) => Success(Record(inputPath, outputPath, a.resizeCalled, a.outcome))
  }

  /** The loop over the listing: the records of the entries converted so far,
      or the error that escaped and ended the loop. */
  function Run(codec: Codec, job: Job, listing: seq<string>): (r: Result<seq<Record>, Error>)
    // No more records than selected entries; the only error that escapes is the format error.
    ensures r.Success? ==> |r.value| <= |Selected(listing)|
    ensures r.Failure? ==> r.error == UnsupportedFormat && !ValidFormat(job.format)
    decreases |listing|
  {
    if listing == [] then Success([])
    else
      match Run(codec, job, listing[..|listing| - 1])
      case Failure(e) => Failure(e)
      case Success(records) =>
        var name := listing[|listing| - 1];
        if !IsHeic(name) then Success(records)
        else match Entry(codec, job, name)
          case Failure(e) => Failure(e)
          case Success(record) => Success(records + [record])
  }

  /** `batch_convert_heic`. `existing` is the set of paths that exist and
      `listing` is `os.listdir(input_directory)`; `createdOutput` says whether
      `os.makedirs(output_directory)` was called. */
  method BatchConvertHeic(codec: Codec, existing: set<string>, listing: seq<string>,
                          inputDirectory: string, outputDirectory: string, format: string,
                          width: Option<int>, height: Option<int>)
    returns (createdOutput: bool, r: Result<seq<Record>, Error>)
    // A missing input directory stops the batch before anything is created or converted.
    ensures inputDirectory !in existing ==> !createdOutput && r == Failure(DirectoryNotFound)
    // Otherwise the output directory is created exactly when it is missing, and the
    // loop runs as Run describes.
    ensures inputDirectory in existing ==> createdOutput == (outputDirectory !in existing)
    ensures inputDirectory in existing ==>
      r == Run(codec, Job(inputDirectory, outputDirectory, format, width, height), listing)
    // With a supported format, every selected entry is attempted, whatever fails.
    ensures inputDirectory in existing && ValidFormat(format) ==>
      r.Success? && |r.value| == |Selected(listing)|
  {
    if inputDirectory !in existing {
      return false, Failure(DirectoryNotFound);
    }
    createdOutput := outputDirectory !in existing;
    ghost var job := Job(inputDirectory, outputDirectory, format, width, height);
    var records := [];
    var i := 0;
    while i < |listing|
      invariant 0 <= i <= |listing|
      invariant Run(codec, job, listing[..i]) == Success(records)
    {
      var name := listing[i];
      RunStep(codec, job, listing, i, records);
      if IsHeic(name) {
        var inputPath := Join(inputDirectory, name);
        var outputPath := Join(outputDirectory, OutputName(name, format));
        var attempt := ConvertHeicToImage(codec, inputPath, outputPath, format, width, height);
        if attempt.Failure? {
          RunPrefixFailure(codec, job, listing, i + 1);
          return createdOutput, Failure(attempt.error);
        }
        records := records + [Record(inputPath, outputPath, attempt.value.resizeCalled, attempt.value.outcome)];
      }
      i := i + 1;
    }
    assert listing[..i] == listing;
    if ValidFormat(format) {
      RunValid(codec, job, listing);
    }
    r := Success(records);
  }

  /** One step of the loop: the entry at index `i` is skipped, converted, or
      ends the loop with the error that escapes. */
  lemma RunStep(codec: Codec, job: Job, listing: seq<string>, i: nat, records: seq<Record>)
    requires i < |listing|
    requires Run(codec, job, listing[..i]) == Success(records)
    ensures Run(codec, job, listing[..i + 1]) ==
      if !IsHeic(listing[i]) then Success(records)
      else match Entry(codec, job, listing[i])
        case Failure(e) => Failure(e)
        case Success(record) => Success(records + [record])
  {
    assert listing[..i + 1][..i] == listing[..i];
  }

  /** Once an error escapes, the entries after it are not looked at. */
  lemma {:induction false} RunPrefixFailure(codec: Codec, job: Job, listing: seq<string>, k: nat)
    requires k <= |listing|
    requires Run(codec, job, listing[..k]).Failure?
    ensures Run(codec, job, listing) == Run(codec, job, listing[..k])
    decreases |listing|
  {
    if k < |listing| {
      var init := listing[..|listing| - 1];
      assert init[..k] == listing[..k];
      RunPrefixFailure(codec, job, init, k);
    } else {
      assert listing[..k] == listing;
    }
  }

  /** The filter keeps order: selecting from a concatenation concatenates the selections. */
  lemma {:induction false} SelectedAppend(xs: seq<string>, ys: seq<string>)
    ensures Selected(xs + ys) == Selected(xs) + Selected(ys)
    decreases |ys|
  {
    if ys == [] {
      assert xs + ys == xs;
    } else {
      var init := ys[..|ys| - 1];
      assert (xs + ys)[..|xs + ys| - 1] == xs + init;
      SelectedAppend(xs, init);
    }
  }

  /** Exactly the ".heic" entries are selected, each as often as it is listed. */
  lemma {:induction false} SelectedExactly(listing: seq<string>, name: string)
    ensures multiset(Selected(listing))[name] ==
      if IsHeic(name) then multiset(listing)[name] else 0
    decreases |listing|
  {
    if listing != [] {
      var init := listing[..|listing| - 1];
      var last := listing[|listing| - 1];
      assert listing == init + [last];
      assert multiset(listing) == multiset(init) + multiset{last};
      SelectedExactly(init, name);
    }
  }

  /** With a supported format, no error escapes: there is one record per selected
      entry, in listing order, each the conversion of that entry, whether or not
      earlier conversions failed. */
  lemma {:induction false} RunValid(codec: Codec, job: Job, listing: seq<string>)
    requires ValidFormat(job.format)
    ensures Run(codec, job, listing).Success?
    ensures |Run(codec, job, listing).value| == |Selected(listing)|
    ensures forall i :: 0 <= i < |Selected(listing)| ==>
      Entry(codec, job, Selected(listing)[i]) == Success(Run(codec, job, listing).value[i])
    decreases |listing|
  {
    if listing != [] {
      var init := listing[..|listing| - 1];
      var name := listing[|listing| - 1];
      RunValid(codec, job, init);
      var done := Run(codec, job, init).value;
      if IsHeic(name) {
        var entry := Entry(codec, job, name);
        assert entry.Success?;
        assert Selected(listing) == Selected(init) + [name];
        assert Run(codec, job, listing) == Success(done + [entry.value]);
      } else {
        assert Selected(listing) == Selected(init);
        assert Run(codec, job, listing) == Success(done);
      }
    }
  }

  /** With an unsupported format, the error escapes exactly when some entry is
      selected (at the first one, before anything is converted); otherwise the
      batch completes with no records. */
  lemma {:induction false} RunInvalidFormat(codec: Codec, job: Job, listing: seq<string>)
    requires !ValidFormat(job.format)
    ensures Run(codec, job, listing) ==
      if Selected(listing) == [] then Success([]) else Failure(UnsupportedFormat)
    decreases |listing|
  {
    if listing != [] {
      RunInvalidFormat(codec, job, listing[..|listing| - 1]);
    }
  }

  /** The selection test looks only at the last five characters, and ignores
      the case the name is written in. */
  lemma IsHeicIgnoresCase(name: string)
    ensures IsHeic(name) <==> |name| >= 5 && Lower(name[|name| - 5..]) == ".heic"
    ensures IsHeic(name) <==> IsHeic(Upper(name))
  {
    CaseInsensitive(name);
    if |name| >= 5 {
      LowerSuffix(name, |name| - 5);
    }
  }

  /** A name ending in ".heic" in any case ends in a dot followed by four
      characters that are not dots. */
  lemma HeicSuffix(name: string)
    requires IsHeic(name)
    ensures |name| >= 5 && name[|name| - 5] == '.'
    ensures forall j :: |name| - 5 < j < |name| ==> name[j] != '.'
  {
    var n := |name|;
    var low := Lower(name);
    assert |low| == n;
    assert low[n - 5..] == ".heic";
    assert low[n - 5] == '.';
    assert low[n - 4] == 'h';
    assert low[n - 3] == 'e';
    assert low[n - 2] == 'i';
    assert low[n - 1] == 'c';
  }

  /** A dot five characters from the end followed by no other dot is the last one. */
  lemma LastDot(name: string)
    requires |name| >= 5 && name[|name| - 5] == '.'
    requires forall j :: |name| - 5 < j < |name| ==> name[j] != '.'
    ensures RFind(name, '.') == |name| - 5
  {
    RFindAt(name, '.', |name| - 5);
  }

  /** So its last dot is the one five characters from the end. */
  lemma HeicLastDot(name: string)
    requires IsHeic(name)
    ensures |name| >= 5 && RFind(name, '.') == |name| - 5
  {
    HeicSuffix(name);
    LastDot(name);
  }

  /** For an entry "<prefix>.heic" whose prefix has a character other than a dot,
      the output name is "<prefix>.<format>", with the format in the case given. */
  lemma HeicOutputName(name: string, format: string)
    requires IsHeic(name) && '/' !in name
    requires !AllDots(name[..|name| - 5])
    ensures OutputName(name, format) == name[..|name| - 5] + "." + format
  {
    HeicLastDot(name);
    assert RFind(name, '/') == -1;
  }

  /** An entry made of dots and ".heic" (".heic", "..heic", ...) is not split:
      its output name is the whole name followed by "." and the format. */
  lemma DotsOnlyOutputName(name: string, format: string)
    requires IsHeic(name) && '/' !in name
    requires AllDots(name[..|name| - 5])
    ensures OutputName(name, format) == name + "." + format
  {
    HeicLastDot(name);
    assert RFind(name, '/') == -1;
  }

  /** The paths of the i-th record of a batch with a supported format: the input
      path joins the input directory and the entry name; the output path joins
      the output directory and the entry's name with its ".heic" replaced by
      "." and the format (or appended to, for a dot-only prefix). */
  lemma BatchPaths(codec: Codec, job: Job, listing: seq<string>, i: nat)
    requires ValidFormat(job.format)
    requires i < |Selected(listing)|
    requires '/' !in Selected(listing)[i]
    ensures Run(codec, job, listing).Success? && i < |Run(codec, job, listing).value|
    ensures var name, record := Selected(listing)[i], Run(codec, job, listing).value[i];
      && |name| >= 5
      && record.inputPath == Join(job.inputDirectory, name)
      && record.outputPath == Join(job.outputDirectory,
           (if AllDots(name[..|name| - 5]) then name else name[..|name| - 5]) + "." + job.format)
  {
    RunValid(codec, job, listing);
    var name := Selected(listing)[i];
    assert name in Selected(listing);
    HeicLastDot(name);
    if AllDots(name[..|name| - 5]) {
      DotsOnlyOutputName(name, job.format);
    } else {
      HeicOutputName(name, job.format);
    }
  }
}
