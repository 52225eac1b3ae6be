/** `copyfile_brainvision`: copying one file of a BrainVision recording
    (`.eeg` binary data, `.vhdr` header, `.vmrk` markers) to a new name,
    rewriting the `DataFile=` and `MarkerFile=` pointers of the text files
    so that they name the new basename. */
module BrainVision {
  import opened Values
  import opened Text

  /** A path split by `_parse_ext` into its stem and its extension. */
  datatype PathParts = PathParts(stem: string, ext: string)

  /** What a call does: raise, copy the bytes unchanged, or write the
      given lines. */
  datatype CopyResult = Failed(error: Error) | CopiedBytes | CopiedText(lines: seq<string>)

  const BrainVisionExtensions: seq<string> := [".eeg", ".vhdr", ".vmrk"]

  /** `stem.split(os.sep)[-1]`: the last path component. */
  function Basename(stem: string): (b: string)
    ensures '/' !in b
  {
    var parts := SplitOn(stem, "/");
    SplitPiecesWithoutSeparator(stem, '/');
    parts[|parts| - 1]
  }

  /** A basename has no `/`, and a directory in front of it does not
      change it. */
  lemma BasenameOfPath(dir: string, b: string)
    requires '/' !in b
    ensures Basename(dir + "/" + b) == b
    ensures Basename(b) == b
    ensures '/' !in Basename(dir)
  {
    SplitAround(dir, b, '/');
    SplitWithoutSeparator(b, '/');
    SplitPiecesWithoutSeparator(dir, '/');
  }

  /** `search_lines` (lines 434-435). */
  function SearchLines(basename: string): (r: seq<string>)
    ensures |r| == 2 && r[0] != r[1]
  {
    ["DataFile=" + basename + ".eeg", "MarkerFile=" + basename + ".vmrk"]
  }

  /** A line that points at the data or marker file of `basename`, up to
      surrounding whitespace. */
  predicate IsReferenceLine(line: string, basename: string) {
    Strip(line) in SearchLines(basename)
  }

  /** The loop body of lines 443-448 for one line. */
  function RewriteLine(line: string, srcBase: string, destBase: string): (r: string)
    ensures !IsReferenceLine(line, srcBase) ==> r == line
    ensures |srcBase| > 0 && |destBase| == |srcBase| ==> |r| == |line|
  {
    if IsReferenceLine(line, srcBase) then ReplaceAll(line, srcBase, destBase) else line
  }

  /** The loop of lines 442-448: every source line is written, rewritten
      when it points at the source. */
  method RewriteLines(lines: seq<string>, srcBase: string, destBase: string) returns (written: seq<string>)
    ensures |written| == |lines|
    ensures forall k :: 0 <= k < |lines| ==> written[k] == RewriteLine(lines[k], srcBase, destBase)
    ensures forall k :: 0 <= k < |lines| && !IsReferenceLine(lines[k], srcBase) ==> written[k] == lines[k]
  {
    var search := SearchLines(srcBase);
    written := [];
    for i := 0 to |lines|
      invariant |written| == i
      invariant forall k :: 0 <= k < i ==> written[k] == RewriteLine(lines[k], srcBase, destBase)
    {
      var line := lines[i];
      if Strip(line) in search {
        written := written + [ReplaceAll(line, srcBase, destBase)];
      } else {
        written := written + [line];
      }
    }
  }

  /** `copyfile_brainvision`, with the existence of `src` and its lines given
      rather than read from disk. The checks run in the order
      `copyfile_brainvision` runs them; only a `.vhdr` or `.vmrk` file is
      rewritten, line by line. */
  method CopyBrainVision(src: PathParts, dest: PathParts, srcExists: bool, lines: seq<string>)
    returns (r: CopyResult)
    ensures !srcExists ==> r == Failed(MissingSource) && r.error.Class() == IOError
    ensures srcExists && src.ext != dest.ext
            ==> r == Failed(ExtensionMismatch(src.ext, dest.ext)) && r.error.Class() == ValueError
    ensures srcExists && src.ext == dest.ext && src.ext !in BrainVisionExtensions
            ==> r == Failed(UnsupportedExtension(src.ext)) && r.error.Class() == ValueError
    ensures srcExists && src.ext == dest.ext == ".eeg" ==> r == CopiedBytes
    ensures r.CopiedText? <==> srcExists && src.ext == dest.ext && src.ext in [".vhdr", ".vmrk"]
    ensures r.CopiedText? ==>
      && |r.lines| == |lines|
      && forall i :: 0 <= i < |lines| ==>
           r.lines[i] == RewriteLine(lines[i], Basename(src.stem), Basename(dest.stem))
    ensures r.CopiedText? && Basename(src.stem) == Basename(dest.stem) ==> r.lines == lines
  {
    if !srcExists {
      return Failed(MissingSource);
    }
    if src.ext != dest.ext {
      return Failed(ExtensionMismatch(src.ext, dest.ext));
    }
    var ext := src.ext;
    if ext !in BrainVisionExtensions {
      return Failed(UnsupportedExtension(ext));
    }
    if ext == ".eeg" {
      return CopiedBytes;
    }
    var written := RewriteLines(lines, Basename(src.stem), Basename(dest.stem));
    if Basename(src.stem) == Basename(dest.stem) {
      SameBasenameIdentity(lines, Basename(src.stem));
    }
    return CopiedText(written);
  }

  /** Copying to the same basename leaves every line as it was. */
  lemma SameBasenameIdentity(lines: seq<string>, b: string)
    ensures forall i :: 0 <= i < |lines| ==> RewriteLine(lines[i], b, b) == lines[i]
  {
    forall i | 0 <= i < |lines| ensures RewriteLine(lines[i], b, b) == lines[i] {
      ReplaceAllSame(lines[i], b);
    }
  }

  /** The key and the extension of one of the two pointers. */
  predicate PointerKind(key: string, ext: string) {
    || (key == "DataFile=" && ext == ".eeg")
    || (key == "MarkerFile=" && ext == ".vmrk")
  }

  /** A pointer to `basename`, padded with whitespace, is recognised. */
  lemma PaddedPointerRecognised(lead: string, key: string, basename: string, ext: string, trail: string)
    requires PointerKind(key, ext) && AllSpace(lead) && AllSpace(trail)
    ensures IsReferenceLine(lead + key + basename + ext + trail, basename)
  {
    var t := key + basename + ext;
    assert !IsSpace(key[0]) && !IsSpace(ext[|ext| - 1]);
    assert t[0] == key[0] && t[|t| - 1] == ext[|ext| - 1];
    assert lead + key + basename + ext + trail == lead + t + trail;
    StripPadded(lead, t, trail);
  }

  /** The only occurrence of the basename in a pointer line is replaced. */
  lemma ReplaceInPointer(lead: string, key: string, srcBase: string, ext: string, trail: string, destBase: string)
    requires srcBase != ""
    requires forall i :: OccursAt(lead + key + srcBase + ext + trail, srcBase, i) ==> i == |lead + key|
    ensures ReplaceAll(lead + key + srcBase + ext + trail, srcBase, destBase)
         == lead + key + destBase + ext + trail
  {
    assert lead + key + srcBase + ext + trail == (lead + key) + srcBase + (ext + trail);
    ReplaceSingle(lead + key, srcBase, ext + trail, destBase);
    assert (lead + key) + destBase + (ext + trail) == lead + key + destBase + ext + trail;
  }

  /** A pointer line `<ws>DataFile=<src>.eeg<ws>` (or the marker form), in
      which the source basename occurs only in the file name the line points to,
      keeps its whitespace and key and comes to name the destination; the
      rewritten line is a pointer to the destination. */
  lemma PointerRetargeted(lead: string, key: string, srcBase: string, ext: string, trail: string, destBase: string)
    requires PointerKind(key, ext) && AllSpace(lead) && AllSpace(trail) && srcBase != ""
    requires forall i :: OccursAt(lead + key + srcBase + ext + trail, srcBase, i) ==> i == |lead + key|
    ensures IsReferenceLine(lead + key + srcBase + ext + trail, srcBase)
    ensures RewriteLine(lead + key + srcBase + ext + trail, srcBase, destBase)
         == lead + key + destBase + ext + trail
    ensures IsReferenceLine(lead + key + destBase + ext + trail, destBase)
  {
    PaddedPointerRecognised(lead, key, srcBase, ext, trail);
    PaddedPointerRecognised(lead, key, destBase, ext, trail);
    ReplaceInPointer(lead, key, srcBase, ext, trail, destBase);
  }

  /** In `File=Data.eeg` the basename `Data` occurs only after `File=`.
      The literals are parameters pinned by `requires`, so that the
      verifier does not unfold them character by character. */
  lemma DataOccursOnce(tail: string, srcBase: string, ext: string)
    requires tail == "File=" && srcBase == "Data" && ext == ".eeg"
    ensures forall i :: OccursAt(tail + srcBase + ext, srcBase, i) ==> i == |tail|
  {
    var rest := tail + srcBase + ext;
    forall i | OccursAt(rest, srcBase, i) ensures i == |tail| {
      assert rest[i] == srcBase[0] == 'D';
    }
  }

  /** With basename `Data`, both occurrences in `DataFile=Data.eeg` are
      replaced. The literals are parameters pinned by `requires`, so
      that the verifier does not unfold them character by character. */
  lemma ReplaceBoth(key: string, tail: string, srcBase: string, ext: string, destBase: string)
    requires key == "DataFile=" && tail == "File=" && srcBase == "Data" && ext == ".eeg"
    ensures ReplaceAll(key + srcBase + ext, srcBase, destBase) == destBase + tail + destBase + ext
  {
    assert key + srcBase + ext == srcBase + (tail + srcBase + ext);
    ReplaceAtFront(srcBase, tail + srcBase + ext, destBase);
    DataOccursOnce(tail, srcBase, ext);
    ReplaceSingle(tail, srcBase, ext, destBase);
    assert destBase + (tail + destBase + ext) == destBase + tail + destBase + ext;
  }

  /** `line.replace` also rewrites the key text when the source basename
      occurs in it: with basename `Data`, the pointer `DataFile=Data.eeg`
      becomes `<dest>File=<dest>.eeg`, which no longer carries the key.
      The literals are parameters pinned by `requires`, so that the
      verifier does not unfold them character by character. */
  lemma KeyTextRewritten(key: string, tail: string, srcBase: string, ext: string, destBase: string)
    requires key == "DataFile=" && tail == "File=" && srcBase == "Data" && ext == ".eeg"
    ensures IsReferenceLine(key + srcBase + ext, srcBase)
    ensures RewriteLine(key + srcBase + ext, srcBase, destBase) == destBase + tail + destBase + ext
  {
    PaddedPointerRecognised("", key, srcBase, ext, "");
    assert "" + key + srcBase + ext + "" == key + srcBase + ext;
    ReplaceBoth(key, tail, srcBase, ext, destBase);
  }
}
