/**
  The pure decisions inside the two bulk actions: the encoded file name
  `<folder>_<file>` that scatter produces and gather parses, the extension
  FileInfo reports, the size threshold computed in 32-bit arithmetic, and
  the test that selects a file for scatter.
 */
module Naming {
  import opened Results
  import opened Text

  const Underscore: char := '_'

  /** The name scatter gives a file: `$"{folderName}_{fileInfo.Name}"`. */
  function EncodeName(folderName: string, fileName: string): string {
    folderName + [Underscore] + fileName
  }

  /**
    How gather reads a name: split at the first underscore, provided that
    underscore is not the first character; otherwise the file is not one of
    the relocated ones.
   */
  function DecodeName(name: string): (r: Option<(string, string)>)
    ensures r.None? <==> Underscore !in name || name[0] == Underscore
    ensures r.Some? ==> r.value.0 != "" && Underscore !in r.value.0
    ensures r.Some? ==> EncodeName(r.value.0, r.value.1) == name
  {
    var underscoreIndex := IndexOf(name, Underscore);
    if underscoreIndex > 0 then
      assert name == name[..underscoreIndex] + [Underscore] + name[underscoreIndex + 1..];
      Some((name[..underscoreIndex], name[underscoreIndex + 1..]))
    else
      None
  }

  /**
    Decoding undoes encoding exactly when the folder name is not empty and
    holds no underscore; the file name may hold underscores of its own.
   */
  lemma DecodeEncode(folderName: string, fileName: string)
    ensures DecodeName(EncodeName(folderName, fileName)) == Some((folderName, fileName))
        <==> folderName != "" && Underscore !in folderName
  {
    var name := EncodeName(folderName, fileName);
    assert name[|folderName|] == Underscore;
    if folderName != "" && Underscore !in folderName {
      var i := IndexOf(name, Underscore);
      assert name[..|folderName|] == folderName;
      assert i == |folderName|;
      assert name[i + 1..] == fileName;
    }
  }

  /**
    Two different folder/file pairs can encode to the same name when the
    folder name holds an underscore: decoding then gives a shorter folder.
   */
  lemma EncodeIsAmbiguous()
    ensures EncodeName("a_b", "c") == EncodeName("a", "b_c")
    ensures DecodeName(EncodeName("a_b", "c")) == Some(("a", "b_c"))
  {
    DecodeEncode("a", "b_c");
    assert EncodeName("a_b", "c") == EncodeName("a", "b_c");
  }

  /** FileInfo.Extension: from the last '.' of the name to its end, or "" when there is none. */
  function Extension(name: string): (ext: string)
    ensures ext == "" <==> '.' !in name
    ensures ext != "" ==> ext[0] == '.' && '.' !in ext[1..]
    ensures |ext| <= |name| && ext == name[|name| - |ext|..]
  {
    var dot := LastIndexOf(name, '.');
    if dot == -1 then "" else name[dot..]
  }

  // ---------------------------------------------------------------------------
  // The size threshold: maxFileSize * 1024 * 1024 in C#'s unchecked int

  const TwoTo31: int := 0x8000_0000
  const TwoTo32: int := 0x1_0000_0000

  predicate IsInt32(x: int) {
    -TwoTo31 <= x < TwoTo31
  }

  /** Two's complement wrap-around of an unbounded integer into 32 bits. */
  function Wrap32(x: int): (r: int)
    ensures IsInt32(r)
    ensures (r - x) % TwoTo32 == 0
  {
    (x + TwoTo31) % TwoTo32 - TwoTo31
  }

  /** The byte count a file must reach: `maxFileSize * 1024 * 1024`, wrapped to 32 bits. */
  function Threshold(maxFileSize: int): int {
    Wrap32(maxFileSize * 1024 * 1024)
  }

  /** Below 2048 megabytes the threshold is the intended number of bytes. */
  lemma ThresholdInRange(maxFileSize: int)
    requires 0 <= maxFileSize < 2048
    ensures Threshold(maxFileSize) == maxFileSize * 1048576
  {
    var x := maxFileSize * 1048576;
    assert 0 <= x + TwoTo31 < TwoTo32;
  }

  /** From 2048 up to 4095 megabytes the product wraps to a negative threshold. */
  lemma ThresholdWraps(maxFileSize: int)
    requires 2048 <= maxFileSize < 4096
    ensures Threshold(maxFileSize) == (maxFileSize - 4096) * 1048576 < 0
  {
    var x := maxFileSize * 1048576;
    assert TwoTo32 <= x + TwoTo31 < 2 * TwoTo32;
    assert (x + TwoTo31) % TwoTo32 == x + TwoTo31 - TwoTo32;
  }

  /**
    Scatter's selection test (line 44): no extension filter, or the filter
    text contains the file's extension ignoring case; and the length is at
    least the threshold.
   */
  predicate Selects(maxFileSize: int, fileExtensions: string, name: string, length: nat) {
    (IsNullOrWhiteSpace(fileExtensions) || ContainsIgnoreCase(fileExtensions, Extension(name)))
    && length >= Threshold(maxFileSize)
  }

  /**
    For a size below 2048 megabytes a file is selected exactly when the
    filter is blank or holds its extension at some position (ignoring
    case), and it is at least that many megabytes long; a file exactly at
    the threshold is selected.
   */
  lemma SelectsIff(maxFileSize: int, fileExtensions: string, name: string, length: nat)
    requires 0 <= maxFileSize < 2048
    ensures Selects(maxFileSize, fileExtensions, name, length) <==>
      (IsNullOrWhiteSpace(fileExtensions)
        || exists i :: 0 <= i <= |fileExtensions| && StartsWithIgnoreCase(fileExtensions[i..], Extension(name)))
      && length >= maxFileSize * 1048576
  {
    ThresholdInRange(maxFileSize);
    ContainsIgnoreCaseAt(fileExtensions, Extension(name));
  }

  /** A file without a '.' has the empty extension, which every filter text contains. */
  lemma NoExtensionPassesAnyFilter(maxFileSize: int, fileExtensions: string, name: string, length: nat)
    requires '.' !in name
    ensures Selects(maxFileSize, fileExtensions, name, length) <==> length >= Threshold(maxFileSize)
  {
    ContainsEmpty(fileExtensions);
  }

  /** From 2048 to 4095 megabytes every file passes the size test. */
  lemma LargeSizeSelectsEveryLength(maxFileSize: int, fileExtensions: string, name: string, length: nat)
    requires 2048 <= maxFileSize < 4096
    ensures Selects(maxFileSize, fileExtensions, name, length) <==>
      IsNullOrWhiteSpace(fileExtensions) || ContainsIgnoreCase(fileExtensions, Extension(name))
  {
    ThresholdWraps(maxFileSize);
  }

  /** The filter ignores case: ".JPG" selects "photo.jpg", and a file one byte under the threshold is not selected. */
  lemma UpperCaseFilterSelectsLowerCaseExtension()
    ensures Selects(1, ".JPG", "photo.jpg", 1048576)
    ensures !Selects(1, ".JPG", "photo.jpg", 1048575)
  {
    ThresholdInRange(1);
    assert Extension("photo.jpg") == ".jpg" by {
      assert LastIndexOf("photo.jpg", '.') == 5;
    }
    var upper, lower := FoldStr(".JPG"), FoldStr(".jpg");
    assert |upper| == 4 && upper[0] == '.' && upper[1] == 'j' && upper[2] == 'p' && upper[3] == 'g';
    assert |lower| == 4 && lower[0] == '.' && lower[1] == 'j' && lower[2] == 'p' && lower[3] == 'g';
    assert upper == lower;
    assert ".JPG"[..4] == ".JPG";
    assert StartsWithIgnoreCase(".JPG", ".jpg");
  }
}
