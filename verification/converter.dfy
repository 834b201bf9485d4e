/** The single-file conversion `convert_heic_to_image`: the output-format check,
    the resize decision, and the open / resize / save steps with their failures
    caught. The image library is an oracle: `Codec` says, for each call, whether
    it succeeds and what it yields. */
module Converter {
  import opened Wrappers
  import opened Text

  /** Width and height of a decoded image. */
  datatype Dims = Dims(width: int, height: int)

  /** The step of a conversion at which the image library failed. */
  datatype Stage = Open | Resize | Save

  /** What one conversion ends with once its failures are caught: the size of
      the saved image, or the step that failed. */
  datatype Outcome = Saved(size: Dims) | Failed(stage: Stage)

  /** The two `ValueError`s the script raises. */
  datatype Error = UnsupportedFormat | DirectoryNotFound

  /** A conversion that got past the format check: whether the codec was asked
      to resize, and how it ended. */
  datatype Attempt = Attempt(resizeCalled: bool, outcome: Outcome)

  /** The image library. `open` reads the header of the file at a path and gives
      its size (None: it raised). `resize` and `save` report whether the call
      returned normally; both receive the input path first, because the pixel
      data of that file is only decoded by them, so a file whose header is sound
      and whose data is corrupt fails there. `resize` yields an image of exactly
      the requested size; `save` also receives the output path, the upper-cased
      format name and the image. */
  datatype Codec = Codec(
    open: string -> Option<Dims>,
    resize: (string, Dims, int, int) -> bool,
    save: (string, string, string, Dims) -> bool)

  /** `output_format.lower() in ['png', 'jpeg']`. */
  predicate ValidFormat(format: string)
    // A supported format is three or four ASCII letters.
    ensures ValidFormat(format) ==> |format| == 3 || |format| == 4
    ensures ValidFormat(format) ==>
      forall i :: 0 <= i < |format| ==> 'a' <= format[i] <= 'z' || 'A' <= format[i] <= 'Z'
  {
    var valid := Lower(format) == "png" || Lower(format) == "jpeg";
    if valid then
      LowerLetters(format);
      valid
    else
      valid
  }

  /** Python truthiness of an optional integer: neither `None` nor `0`. */
  predicate Truthy(x: Option<int>) {
    x.Some? && x.value != 0
  }

  /** `if width and height`. */
  predicate ShouldResize(width: Option<int>, height: Option<int>)
    // Only one of the two given, or either of them 0: no resize.
    ensures width == None || height == None || width == Some(0) || height == Some(0) ==>
      !ShouldResize(width, height)
    ensures ShouldResize(width, height) ==> width.Some? && height.Some?
  {
    Truthy(width) && Truthy(height)
  }

  /** The size a saved image has, given the size the file decoded to. */
  function TargetSize(original: Dims, width: Option<int>, height: Option<int>): (r: Dims) {
    if ShouldResize(width, height) then Dims(width.value, height.value) else original
  }

  /** The effect of one call of `convert_heic_to_image`. */
  function Conversion(codec: Codec, inputFile: string, outputFile: string, format: string,
                      width: Option<int>, height: Option<int>): (r: Result<Attempt, Error>)
    // The format error is raised exactly for an unsupported format, and no other error escapes.
    ensures r.Failure? <==> !ValidFormat(format)
    ensures r.Failure? ==> r.error == UnsupportedFormat
    // The file is opened first; if that fails nothing else is attempted.
    ensures r.Success? && codec.open(inputFile).None? ==> r.value == Attempt(false, Failed(Open))
    // A resize is requested exactly when the file opened and both dimensions are truthy.
    ensures r.Success? ==>
      (r.value.resizeCalled <==> codec.open(inputFile).Some? && ShouldResize(width, height))
    // The image is saved exactly when every library call returned normally ...
    ensures r.Success? ==>
      (r.value.outcome.Saved? <==>
        && codec.open(inputFile).Some?
        && (ShouldResize(width, height) ==>
              codec.resize(inputFile, codec.open(inputFile).value, width.value, height.value))
        && codec.save(inputFile, outputFile, Upper(format),
                      TargetSize(codec.open(inputFile).value, width, height)))
    // A failed resize ends the attempt before anything is saved ...
    ensures r.Success? && codec.open(inputFile).Some? && ShouldResize(width, height)
            && !codec.resize(inputFile, codec.open(inputFile).value, width.value, height.value) ==>
      r.value.outcome == Failed(Resize)
    // ... and the save fails exactly when everything before it succeeded and it did not.
    ensures r.Success? ==>
      (r.value.outcome == Failed(Save) <==>
        && codec.open(inputFile).Some?
        && (ShouldResize(width, height) ==>
              codec.resize(inputFile, codec.open(inputFile).value, width.value, height.value))
        && !codec.save(inputFile, outputFile, Upper(format),
                       TargetSize(codec.open(inputFile).value, width, height)))
    // When it is saved, it has the requested size, or its original size when no resize was asked for.
    ensures r.Success? && r.value.outcome.Saved? ==>
      && codec.open(inputFile).Some?
      && r.value.outcome.size ==
           if ShouldResize(width, height) then Dims(width.value, height.value)
           else codec.open(inputFile).value
  {
    if !ValidFormat(format) then Failure(UnsupportedFormat)
    else match codec.open(inputFile)
      case None => Success(Attempt(false, Failed(Open)))
      case Some(image) =>
        var resizing := ShouldResize(width, height);
        if resizing && !codec.resize(inputFile, image, width.value, height.value) then
          Success(Attempt(true, Failed(Resize)))
        else if codec.save(inputFile, outputFile, Upper(format), TargetSize(image, width, height)) then
          Success(Attempt(resizing, Saved(TargetSize(image, width, height))))
        else
          Success(Attempt(resizing, Failed(Save)))
  }

  /** `convert_heic_to_image`: check the format, then open, possibly resize, and
      save, reassigning the image as it goes; a library failure ends the attempt
      and is reported instead of raised. */
  method ConvertHeicToImage(codec: Codec, inputFile: string, outputFile: string, format: string,
                            width: Option<int>, height: Option<int>) returns (r: Result<Attempt, Error>)
    ensures r == Conversion(codec, inputFile, outputFile, format, width, height)
  {
    if !ValidFormat(format) {
      return Failure(UnsupportedFormat);
    }
    var decoded := codec.open(inputFile);
    if decoded.None? {
      return Success(Attempt(false, Failed(Open)));
    }
    var image := decoded.value;
    var resizing := ShouldResize(width, height);
    if resizing {
      if !codec.resize(inputFile, image, width.value, height.value) {
        return Success(Attempt(true, Failed(Resize)));
      }
      image := Dims(width.value, height.value);
    }
    if !codec.save(inputFile, outputFile, Upper(format), image) {
      return Success(Attempt(resizing, Failed(Save)));
    }
    r := Success(Attempt(resizing, Saved(image)));
  }

  /** The format check ignores case: a format passes exactly when its upper-
      and lower-cased spellings do. */
  lemma ValidFormatIgnoresCase(format: string)
    ensures ValidFormat(format) <==> ValidFormat(Upper(format))
    ensures ValidFormat(format) <==> ValidFormat(Lower(format))
  {
    CaseInsensitive(format);
  }

  /** The format name handed to the library when saving is "PNG" for a format
      that lower-cases to "png" and "JPEG" for one that lower-cases to "jpeg". */
  lemma SaveFormatName(format: string)
    requires ValidFormat(format)
    ensures Lower(format) == "png" ==> Upper(format) == "PNG"
    ensures Lower(format) == "jpeg" ==> Upper(format) == "JPEG"
  {
    CaseInsensitive(format);
    assert Upper("png") == "PNG" by {
      assert Upper("png")[0] == 'P' && Upper("png")[1] == 'N' && Upper("png")[2] == 'G';
    }
    assert Upper("jpeg") == "JPEG" by {
      assert Upper("jpeg")[0] == 'J' && Upper("jpeg")[1] == 'P';
      assert Upper("jpeg")[2] == 'E' && Upper("jpeg")[3] == 'G';
    }
  }
}
