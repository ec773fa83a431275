/**
 * `compress_image`: the name of the file it writes, and what it returns or
 * raises. Decoding, the RGBA-to-RGB conversion and the JPEG encoder belong to
 * the imaging library; the model receives their outcome as a `CodecOutcome`.
 */
module Processor {
  import opened Text
  import opened PosixPath

  /** Marker that every error string returned by `compress_image` contains. */
  const ErrorTag: string := "오류"

  /** Appended to the stem of the input's file name; the extension is always `.jpg`. */
  const CompressedSuffix: string := "_compressed.jpg"

  /** What the imaging library did with one input. */
  datatype CodecOutcome =
    | OpenFails                  // `Image.open` raised
    | SaveFails(message: string) // a later step raised; `message` is `str(e)`
    | Saved                      // the JPEG was written to the output path

  /** How a Python call ended: with a value, or with an exception. */
  datatype Call = Returned(value: string) | Raised

  /** `splitext(basename(p))[0] + "_compressed.jpg"` */
  function NewFilename(inputPath: string): (r: string)
    ensures EndsWith(r, CompressedSuffix)
    ensures Sep !in r
  {
    var stem := SplitExt(Basename(inputPath)).0;
    assert stem == Basename(inputPath)[..|stem|];
    assert Sep !in stem by {
      forall k | 0 <= k < |stem| ensures stem[k] != Sep {
        assert stem[k] == Basename(inputPath)[k];
      }
    }
    assert (stem + CompressedSuffix)[|stem|..] == CompressedSuffix;
    stem + CompressedSuffix
  }

  /** `os.path.join(output_dir, new_filename)`: where the compressed copy goes. */
  function OutputPath(inputPath: string, outputDir: string): string {
    Join(outputDir, NewFilename(inputPath))
  }

  /**
   * The compressed copy goes into the output directory, under the new file
   * name, and its path ends in `_compressed.jpg`.
   */
  lemma OutputPathInDirectory(inputPath: string, outputDir: string)
    ensures StartsWith(OutputPath(inputPath, outputDir), outputDir)
    ensures Basename(OutputPath(inputPath, outputDir)) == NewFilename(inputPath)
    ensures EndsWith(OutputPath(inputPath, outputDir), CompressedSuffix)
  {
    var name := NewFilename(inputPath);
    JoinPlacesInDirectory(outputDir, name);
    EndsWithTransitive(Join(outputDir, name), name, CompressedSuffix);
  }

  /**
   * The output name keeps only the stem of the input's file name: inputs that
   * differ in directory or extension but share a stem are written to the same
   * path, and that path ends in `.jpg` whatever the input's extension was.
   */
  lemma OutputDependsOnlyOnStem(dirA: string, dirB: string, stem: string, extA: string, extB: string,
                                outputDir: string)
    requires dirA == [] || dirA[|dirA| - 1] == Sep
    requires dirB == [] || dirB[|dirB| - 1] == Sep
    requires Sep !in stem && HasNonDotBetween(stem, 0, |stem|)
    requires Sep !in extA && ExtSep !in extA && Sep !in extB && ExtSep !in extB
    ensures OutputPath(dirA + stem + [ExtSep] + extA, outputDir)
         == OutputPath(dirB + stem + [ExtSep] + extB, outputDir)
         == Join(outputDir, stem + CompressedSuffix)
  {
    StemOfInput(dirA, stem, extA);
    StemOfInput(dirB, stem, extB);
  }

  /** The new file name of `dir/stem.ext` is `stem_compressed.jpg`. */
  lemma StemOfInput(dir: string, stem: string, ext: string)
    requires dir == [] || dir[|dir| - 1] == Sep
    requires Sep !in stem && HasNonDotBetween(stem, 0, |stem|)
    requires Sep !in ext && ExtSep !in ext
    ensures NewFilename(dir + stem + [ExtSep] + ext) == stem + CompressedSuffix
  {
    var name := stem + [ExtSep] + ext;
    assert Sep !in name;
    assert dir + stem + [ExtSep] + ext == dir + name;
    BasenameAfterDirectory(dir, name);
    SplitExtOfStemAndExtension(stem, ext);
  }

  /**
   * A file whose name has only leading dots, such as `.png`, has no
   * extension to drop: the whole name is kept before `_compressed.jpg`.
   */
  lemma DotFileKeepsWholeName(dir: string, dots: string, rest: string)
    requires dir == [] || dir[|dir| - 1] == Sep
    requires forall k :: 0 <= k < |dots| ==> dots[k] == ExtSep
    requires Sep !in rest && ExtSep !in rest
    ensures NewFilename(dir + dots + rest) == dots + rest + CompressedSuffix
  {
    var name := dots + rest;
    assert Sep !in name by {
      forall k | 0 <= k < |name| ensures name[k] != Sep {
        if k < |dots| { assert name[k] == dots[k]; } else { assert name[k] == rest[k - |dots|]; }
      }
    }
    assert dir + dots + rest == dir + name;
    BasenameAfterDirectory(dir, name);
    LeadingDotsAreNoExtension(dots, rest);
  }

  /** A PNG in, with a save directory `/out`: a JPEG named after its stem comes out. */
  lemma PngBecomesJpegInSaveDirectory()
    ensures OutputPath("photo.png", "/out") == "/out/photo_compressed.jpg"
  {
    PhotoOutputName();
    PhotoJoinedUnderOut();
  }

  lemma PhotoJoinedUnderOut()
    ensures Join("/out", "photo" + CompressedSuffix) == "/out/photo_compressed.jpg"
  {
    JoinWithSeparator("/out", "photo" + CompressedSuffix);
  }

  lemma PhotoOutputName()
    ensures OutputPath("photo.png", "/out") == Join("/out", "photo" + CompressedSuffix)
  {
    assert HasNonDotBetween("photo", 0, 5) by { assert "photo"[0] != ExtSep; }
    assert "photo.png" == [] + "photo" + [ExtSep] + "png";
    StemOfInput([], "photo", "png");
  }

  /** A relative name joined to a directory without a trailing separator gets one. */
  lemma JoinWithSeparator(dir: string, name: string)
    requires dir != [] && dir[|dir| - 1] != Sep
    requires name != [] && name[0] != Sep
    ensures Join(dir, name) == dir + [Sep] + name
  {
    assert name[..1] == [name[0]];
  }

  /** The text returned when a step after `Image.open` raises. */
  function FailureText(inputPath: string, message: string): (r: string)
    ensures Contains(r, ErrorTag)
    ensures Contains(r, Basename(inputPath))
  {
    var pre := "오류 발생 (";
    var r := pre + Basename(inputPath) + "): " + message;
    assert OccursAt(r, ErrorTag, 0);
    assert OccursAt(r, Basename(inputPath), |pre|) by {
      assert r[|pre|..|pre| + |Basename(inputPath)|] == Basename(inputPath);
    }
    r
  }

  /**
   * `compress_image(input_path, output_dir)`. It returns the output path on
   * success and an error string when a step after `Image.open` fails. When
   * `Image.open` itself fails, `filename` is still unbound in the handler, so
   * the call raises instead of returning.
   */
  function CompressImage(inputPath: string, outputDir: string, codec: CodecOutcome): (r: Call)
    ensures r.Raised? <==> codec.OpenFails?
    ensures codec.Saved? ==> r == Returned(OutputPath(inputPath, outputDir))
    ensures codec.SaveFails? ==> r.Returned? && Contains(r.value, ErrorTag)
                                 && Contains(r.value, Basename(inputPath))
  {
    match codec
    case OpenFails => Raised
    case SaveFails(message) => Returned(FailureText(inputPath, message))
    case Saved => Returned(OutputPath(inputPath, outputDir))
  }
}
