/**
  The local file-system image manager (LocalFileSystemImageManager): the name tests it
  applies to files, and the order of the checks in front of every read and write.

  The disk is not part of this model. A `java.io.File` becomes a FileNode: a snapshot of what
  `exists()`, `isFile()`, `isDirectory()`, `getParentFile()` and `listFiles()` would report
  for it, together with what `ImageIO.read` would return for it (`decoded`) and whether
  `ImageIO.write` would succeed on it (`writeSucceeds`). A null `File` is `None`.
 */
module FileSystem {
  import opened Outcomes
  import opened Raster

  const SupportedFormats: set<string> := {"jpg", "jpeg", "png", "bmp"}

  const FileNullMessage := "imageFile cannot be null"
  const NotRegularFileMessage := "File does not exist or is not a regular file"
  const UnsupportedFileMessage := "File has a unsupported image format"
  const LoadFailedMessage := "Failed to load image"
  const DirectoryNullMessage := "Directory cannot be null"
  const NotDirectoryMessage := "Directory does not exist or is not a directory"
  const ListFailedMessage := "Failed to process files in directory"
  const UnsupportedInDirectoryMessage := "Directory contains unsupported file format"
  const ImageNullMessage := "Image cannot be null"
  const TargetNullMessage := "ImageFile cannot be null"
  const TargetExistsMessage := "File already exists"
  const ParentMissingMessage := "Parent directory does not exist"
  const UnsupportedSaveMessage := "Unsupported image format for saving"
  const SaveFailedMessage := "Failed to save image"

  /** What `getParentFile()` reports: no parent in the path, or a parent that may or may not exist. */
  datatype ParentDirectory = NoParent | ParentDirectory(present: bool)

  /** A `java.io.File` as the manager observes it. */
  datatype FileNode = FileNode(
    name: string,                       // getName()
    present: bool,                      // exists()
    isFile: bool,                       // isFile()
    isDirectory: bool,                  // isDirectory()
    parent: ParentDirectory,            // getParentFile() and its exists()
    decoded: Option<Image>,             // ImageIO.read(file), None for a null result
    listing: Option<seq<FileNode>>,     // listFiles(), None for a null result
    writeSucceeds: bool)                // what ImageIO.write(image, format, file) returns

  /** `s.endsWith(suffix)`. */
  predicate EndsWith(s: string, suffix: string) {
    |suffix| <= |s| && s[|s| - |suffix|..] == suffix
  }

  /** The name ends with one of the supported format names; no dot is demanded before it. */
  predicate HasSupportedSuffix(name: string) {
    exists format :: format in SupportedFormats && EndsWith(name, format)
  }

  /** `s.lastIndexOf(c)`: the position of the last c in s, or -1 when s holds none. */
  function LastIndexOf(s: string, c: char): (i: int)
    ensures -1 <= i < |s|
    ensures i >= 0 ==> s[i] == c
    ensures forall j :: i < j < |s| ==> s[j] != c
    ensures i == -1 <==> c !in s
  {
    if |s| == 0 then -1
    else if s[|s| - 1] == c then |s| - 1
    else LastIndexOf(s[..|s| - 1], c)
  }

  /**
    `getExtension(file)`: everything after the last '.', or the whole name when it has none.
    The extension never contains a '.', it ends the name, and a '.' stands right before it
    exactly when the name has one.
   */
  function GetExtension(name: string): (ext: string)
    ensures '.' !in ext
    ensures |ext| <= |name| && name[|name| - |ext|..] == ext
    ensures '.' in name ==> name[|name| - |ext| - 1] == '.'
    ensures '.' !in name ==> ext == name
  {
    name[LastIndexOf(name, '.') + 1..]
  }

  /** Joining a base name and an extension with '.' gives the extension back, whatever the base. */
  lemma {:induction false} ExtensionOfJoinedName(base: string, ext: string)
    requires '.' !in ext
    ensures GetExtension(base + "." + ext) == ext
  {
    var name := base + "." + ext;
    assert name[|base|] == '.';
    assert forall j :: |base| < j < |name| ==> name[j] == ext[j - |base| - 1];
    assert LastIndexOf(name, '.') == |base|;
    assert name[|base| + 1..] == ext;
  }

  /** A name whose extension is a supported format name passes the suffix test. */
  lemma {:induction false} SupportedExtensionIsSupportedName(name: string)
    requires GetExtension(name) in SupportedFormats
    ensures HasSupportedSuffix(name)
  {
    var ext := GetExtension(name);
    assert EndsWith(name, ext);
  }

  /**
    The suffix test does not look for a dot: "xpng" passes it, although its extension is
    "xpng", which is no format name.
   */
  lemma DotlessNameCanPass()
    ensures HasSupportedSuffix("xpng")
    ensures GetExtension("xpng") == "xpng" && GetExtension("xpng") !in SupportedFormats
  {
    assert EndsWith("xpng", "png");
  }

  /** The names the manager's tests refuse, and a capitalised one: the test is case-sensitive. */
  lemma UnsupportedNames()
    ensures !HasSupportedSuffix("test.fake")
    ensures !HasSupportedSuffix("test.text")
    ensures !HasSupportedSuffix("photo.PNG")
  {
    forall format | format in SupportedFormats
      ensures !EndsWith("test.fake", format) && !EndsWith("test.text", format) && !EndsWith("photo.PNG", format)
    {
      assert format == "jpg" || format == "jpeg" || format == "png" || format == "bmp";
    }
  }

  /** `ImageIO.read` on a file that passes every check of `loadImagesFromDirectory`'s loop. */
  predicate Loadable(file: FileNode) {
    file.isFile ==> HasSupportedSuffix(file.name) && file.decoded.Some?
  }

  /** The error the loop of `loadImagesFromDirectory` stops with at a file that is not loadable. */
  function LoadError(file: FileNode): Error {
    if HasSupportedSuffix(file.name) then IOError(LoadFailedMessage) else IOError(UnsupportedInDirectoryMessage)
  }

  /**
    The loop of `loadImagesFromDirectory` over the listing `files`, as a definition: each
    regular file with a supported name adds its decoded image at the end, or stops the loop
    when it decodes to null; any other regular file stops the loop; the rest are skipped.
   */
  function CollectImages(files: seq<FileNode>): (r: Result<seq<Image>>)
    ensures r.Success? ==> |r.value| <= |files|
    ensures r.Failure? ==> r.error == IOError(LoadFailedMessage) || r.error == IOError(UnsupportedInDirectoryMessage)
  {
    if files == [] then Success([])
    else
      var file := files[|files| - 1];
      match CollectImages(files[..|files| - 1])
      case Failure(e) => Failure(e)
      case Success(images) =>
        if file.isFile && HasSupportedSuffix(file.name) then
          if file.decoded.None? then Failure(IOError(LoadFailedMessage))
          else Success(images + [file.decoded.value])
        else if file.isFile then Failure(IOError(UnsupportedInDirectoryMessage))
        else Success(images)
  }

  /** The decoded images of the regular files in `files`, in listing order. */
  function DecodedImages(files: seq<FileNode>): seq<Image>
    requires forall i :: 0 <= i < |files| ==> Loadable(files[i])
  {
    if files == [] then []
    else
      assert Loadable(files[0]);
      (if files[0].isFile then [files[0].decoded.value] else []) + DecodedImages(files[1..])
  }

  lemma {:induction false} DecodedImagesAppend(files: seq<FileNode>, file: FileNode)
    requires forall i :: 0 <= i < |files| ==> Loadable(files[i])
    requires Loadable(file)
    ensures DecodedImages(files + [file]) == DecodedImages(files) + (if file.isFile then [file.decoded.value] else [])
  {
    if files != [] {
      assert (files + [file])[1..] == files[1..] + [file];
      DecodedImagesAppend(files[1..], file);
    }
  }

  /**
    The directory loop succeeds exactly when every regular file in the listing is loadable,
    and then it returns the decoded images of the regular files, in listing order.
   */
  lemma {:induction false} CollectImagesSucceeds(files: seq<FileNode>)
    ensures CollectImages(files).Success? <==> forall i :: 0 <= i < |files| ==> Loadable(files[i])
    ensures CollectImages(files).Success? ==> CollectImages(files).value == DecodedImages(files)
  {
    if files != [] {
      var front, file := files[..|files| - 1], files[|files| - 1];
      assert files == front + [file];
      CollectImagesSucceeds(front);
      if forall i :: 0 <= i < |files| ==> Loadable(files[i]) {
        assert forall i :: 0 <= i < |front| ==> Loadable(front[i]) by {
          forall i | 0 <= i < |front| ensures Loadable(front[i]) {
            assert front[i] == files[i];
          }
        }
        DecodedImagesAppend(front, file);
      } else {
        var k :| 0 <= k < |files| && !Loadable(files[k]);
        if k < |front| {
          assert front[k] == files[k];
        }
      }
    }
  }

  /**
    When the directory loop fails, it fails at the first regular file in the listing that is
    not loadable, with that file's error.
   */
  lemma {:induction false} CollectImagesFailsAtFirstBadFile(files: seq<FileNode>)
    requires CollectImages(files).Failure?
    ensures exists k :: (0 <= k < |files| && !Loadable(files[k])
      && (forall i :: 0 <= i < k ==> Loadable(files[i]))
      && CollectImages(files).error == LoadError(files[k]))
  {
    var front, file := files[..|files| - 1], files[|files| - 1];
    if CollectImages(front).Failure? {
      CollectImagesFailsAtFirstBadFile(front);
      var k :| 0 <= k < |front| && !Loadable(front[k])
        && (forall i :: 0 <= i < k ==> Loadable(front[i]))
        && CollectImages(front).error == LoadError(front[k]);
      assert files[k] == front[k];
      assert forall i :: 0 <= i < k ==> files[i] == front[i];
    } else {
      CollectImagesSucceeds(front);
      assert forall i :: 0 <= i < |front| ==> files[i] == front[i];
      assert !Loadable(files[|front|]);
    }
  }

  /** Once the loop has stopped on a prefix of the listing, the files after it change nothing. */
  lemma {:induction false} FailureIsFinal(files: seq<FileNode>, n: nat)
    requires n <= |files| && CollectImages(files[..n]).Failure?
    ensures CollectImages(files) == CollectImages(files[..n])
    decreases |files| - n
  {
    if n < |files| {
      assert files[..n + 1][..n] == files[..n];
      FailureIsFinal(files, n + 1);
    } else {
      assert files[..n] == files;
    }
  }

  /** LocalFileSystemImageManager: stateless; everything it needs comes with the file. */
  class LocalFileSystemImageManager {

    constructor () {}

    /**
      `isSupportedFormat(file)`: false for null; otherwise it tries the format names one by
      one, in no fixed order, and answers true at the first that ends the name.
     */
    static method IsSupportedFormat(file: Option<FileNode>) returns (supported: bool)
      ensures supported <==> file.Some? && HasSupportedSuffix(file.value.name)
    {
      if file.None? {
        return false;
      }
      var name := file.value.name;
      var remaining := SupportedFormats;
      while remaining != {}
        invariant remaining <= SupportedFormats
        invariant forall format :: format in SupportedFormats && format !in remaining ==> !EndsWith(name, format)
        decreases |remaining|
      {
        var format :| format in remaining;
        if EndsWith(name, format) {
          return true;
        }
        remaining := remaining - {format};
      }
      return false;
    }

    /**
      `loadImage(file)`: refuses a null file, then a file that is missing or not a regular
      file, then an unsupported name, then a file that decodes to null, in that order;
      otherwise it copies the decoded image pixel by pixel into a new TYPE_INT_RGB raster of
      the same size, which keeps every colour and reads back with alpha 0xFF.
     */
    method LoadImage(imageFile: Option<FileNode>) returns (r: Result<Image>)
      ensures imageFile.None? ==> r == Failure(IllegalArgument(FileNullMessage))
      ensures imageFile.Some? ==>
        var file := imageFile.value;
        if !file.present || !file.isFile then r == Failure(IOError(NotRegularFileMessage))
        else if !HasSupportedSuffix(file.name) then r == Failure(IOError(UnsupportedFileMessage))
        else if file.decoded.None? then r == Failure(IOError(LoadFailedMessage))
        else
          var original := file.decoded.value;
          && r.Success? && fresh(r.value) && fresh(r.value.pixels)
          && r.value.imageType == TypeIntRgb
          && r.value.Width() == original.Width() && r.value.Height() == original.Height()
          && forall x, y :: original.InBounds(x, y) ==> r.value.GetRGB(x, y) == Opaque(original.GetRGB(x, y))
    {
      if imageFile.None? {
        return Failure(IllegalArgument(FileNullMessage));
      }
      var file := imageFile.value;
      if !file.present || !file.isFile {
        return Failure(IOError(NotRegularFileMessage));
      }
      var supported := IsSupportedFormat(imageFile);
      if !supported {
        return Failure(IOError(UnsupportedFileMessage));
      }
      if file.decoded.None? {
        return Failure(IOError(LoadFailedMessage));
      }
      var originalImage := file.decoded.value;
      var rgbImage := new Image(originalImage.Width(), originalImage.Height(), TypeIntRgb);

      for x := 0 to originalImage.Width()
        invariant forall i, j :: 0 <= i < x && 0 <= j < originalImage.Height() ==> rgbImage.pixels[i, j] == originalImage.GetRGB(i, j)
      {
        for y := 0 to originalImage.Height()
          invariant forall i, j :: 0 <= i < x && 0 <= j < originalImage.Height() ==> rgbImage.pixels[i, j] == originalImage.GetRGB(i, j)
          invariant forall j :: 0 <= j < y ==> rgbImage.pixels[x, j] == originalImage.GetRGB(x, j)
        {
          rgbImage.SetRGB(x, y, originalImage.GetRGB(x, y));
        }
      }
      return Success(rgbImage);
    }

    /**
      `loadImagesFromDirectory(dir)`: refuses a null directory, then one that is missing or
      not a directory, then one whose listing is null; otherwise the result is the directory
      loop over the listing.
     */
    method LoadImagesFromDirectory(imagesDirectory: Option<FileNode>) returns (r: Result<seq<Image>>)
      ensures imagesDirectory.None? ==> r == Failure(IllegalArgument(DirectoryNullMessage))
      ensures imagesDirectory.Some? ==>
        var dir := imagesDirectory.value;
        if !dir.present || !dir.isDirectory then r == Failure(IOError(NotDirectoryMessage))
        else if dir.listing.None? then r == Failure(IOError(ListFailedMessage))
        else r == CollectImages(dir.listing.value)
    {
      if imagesDirectory.None? {
        return Failure(IllegalArgument(DirectoryNullMessage));
      }
      var dir := imagesDirectory.value;
      if !dir.present || !dir.isDirectory {
        return Failure(IOError(NotDirectoryMessage));
      }
      if dir.listing.None? {
        return Failure(IOError(ListFailedMessage));
      }
      var files := dir.listing.value;
      var images: seq<Image> := [];

      for n := 0 to |files|
        invariant CollectImages(files[..n]) == Success(images)
      {
        var file := files[n];
        assert files[..n + 1][..n] == files[..n];
        var supported := false;
        if file.isFile {
          supported := IsSupportedFormat(Some(file));
        }
        if file.isFile && supported {
          var img := file.decoded;
          if img.None? {
            FailureIsFinal(files, n + 1);
            return Failure(IOError(LoadFailedMessage));
          }
          images := images + [img.value];
        } else if file.isFile {
          FailureIsFinal(files, n + 1);
          return Failure(IOError(UnsupportedInDirectoryMessage));
        }
      }
      assert files[..|files|] == files;
      return Success(images);
    }

    /**
      `saveImage(image, file)`: refuses a null image, then a null file, then a file that
      already exists, then a file whose parent directory is named but missing, then an
      unsupported name, in that order. `writeFormat` is the format `ImageIO.write` is called
      with, and None when it is not called: it is called, with the name's extension, exactly
      when every check passes, and the save fails when the write reports failure.
     */
    method SaveImage(image: Image?, imageFile: Option<FileNode>) returns (r: Result<()>, ghost writeFormat: Option<string>)
      ensures image == null ==> r == Failure(IllegalArgument(ImageNullMessage)) && writeFormat == None
      ensures image != null && imageFile.None? ==> r == Failure(IllegalArgument(TargetNullMessage)) && writeFormat == None
      ensures image != null && imageFile.Some? ==>
        var file := imageFile.value;
        if file.present then r == Failure(IOError(TargetExistsMessage)) && writeFormat == None
        else if file.parent == ParentDirectory(false) then r == Failure(IOError(ParentMissingMessage)) && writeFormat == None
        else if !HasSupportedSuffix(file.name) then r == Failure(IOError(UnsupportedSaveMessage)) && writeFormat == None
        else
          && writeFormat == Some(GetExtension(file.name))
          && r == if file.writeSucceeds then Success(()) else Failure(IOError(SaveFailedMessage))
    {
      if image == null {
        return Failure(IllegalArgument(ImageNullMessage)), None;
      }
      if imageFile.None? {
        return Failure(IllegalArgument(TargetNullMessage)), None;
      }
      var file := imageFile.value;
      if file.present {
        return Failure(IOError(TargetExistsMessage)), None;
      }
      var parent := file.parent;
      if parent.ParentDirectory? && !parent.present {
        return Failure(IOError(ParentMissingMessage)), None;
      }
      var supported := IsSupportedFormat(imageFile);
      if !supported {
        return Failure(IOError(UnsupportedSaveMessage)), None;
      }
      writeFormat := Some(GetExtension(file.name));
      var success := file.writeSucceeds;
      if !success {
        return Failure(IOError(SaveFailedMessage)), writeFormat;
      }
      r := Success(());
    }
  }

  /**
    What the manager's load test checks: an image decoded as TYPE_INT_RGB (its pixels read
    back opaque) comes out of `loadImage`'s copy pixel for pixel the same.
   */
  lemma LoadedCopyOfOpaqueImage(original: Image, loaded: Image)
    requires original.imageType == TypeIntRgb
    requires loaded.Width() == original.Width() && loaded.Height() == original.Height()
    requires forall x, y :: original.InBounds(x, y) ==> loaded.GetRGB(x, y) == Opaque(original.GetRGB(x, y))
    ensures forall x, y :: original.InBounds(x, y) ==> loaded.GetRGB(x, y) == original.GetRGB(x, y)
  {
    forall x, y | original.InBounds(x, y)
      ensures loaded.GetRGB(x, y) == original.GetRGB(x, y)
    {
      OpaqueKeepsOpaque(original.GetRGB(x, y));
    }
  }
}
