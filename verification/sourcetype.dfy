/**
  Choosing how a picked file is loaded (`InitialWindow.loadRawData` and
  `load`): the extension is everything from the last `.` of the path on, and
  only `.npy` is loaded directly as a binary array pair; every other file goes
  through the text preview and column selection.
*/
module SourceType {

  import PySlice

  /** `s.rfind(c)`: the last index of `s` holding `c`, or -1 when there is none. */
  function RFind(s: string, c: char): (r: int)
    ensures -1 <= r < |s|
    ensures r >= 0 ==> s[r] == c
    ensures forall j | r < j < |s| :: s[j] != c
  {
    if |s| == 0 then -1
    else if s[|s| - 1] == c then |s| - 1
    else RFind(s[..|s| - 1], c)
  }

  /** `path[path.rfind("."):]` */
  function Extension(path: string): (ext: string)
    ensures |ext| <= |path| && ext == path[|path| - |ext|..]
    ensures |path| > 0 ==> |ext| > 0
  {
    PySlice.Slice(path, RFind(path, '.'), |path|)
  }

  /** The test in `loadRawData` that sends a file down the binary path. */
  predicate IsBinary(path: string): (b: bool)
    ensures b ==> |path| >= 4 && path[|path| - 4..] == ".npy"
  {
    Extension(path) == ".npy"
  }

  /** What `load` is called with: column selectors, header flag, cleaning and chunked reading. */
  datatype LoadOptions = LoadOptions(xCol: int, yCol: int, hasHeaders: bool, shouldClean: bool, shouldChunk: bool)

  /**
    Where `loadRawData` goes with a picked path: nothing picked shows the error
    label; a binary file is loaded at once with `load`'s defaults and no
    chunking; any other file gets the preview, whose form starts with the
    options shown here (x column 0, y column 1, no header, clean, chunked).
  */
  datatype Route = NoFile | Direct(opts: LoadOptions) | Preview(initial: LoadOptions)

  function Dispatch(path: string): (r: Route)
    ensures r.NoFile? <==> |path| == 0
    ensures r.Direct? ==> !r.opts.shouldChunk
    ensures r.Preview? ==> r.initial.shouldChunk
  {
    if path == [] then NoFile
    else if IsBinary(path) then Direct(LoadOptions(0, 1, false, true, false))
    else Preview(LoadOptions(0, 1, false, true, true))
  }

  /** With a `.` in the path, the extension is the tail from the last `.`, holding no other `.`. */
  lemma ExtensionFromLastDot(path: string)
    requires '.' in path
    ensures var k := RFind(path, '.');
      && 0 <= k
      && Extension(path) == path[k..]
      && path == path[..k] + Extension(path)
      && Extension(path)[0] == '.'
      && '.' !in Extension(path)[1..]
  {
    var k := RFind(path, '.');
    assert k >= 0 by {
      var i :| 0 <= i < |path| && path[i] == '.';
    }
    assert path == path[..k] + path[k..];
  }

  /** Without a `.`, `rfind` gives -1 and the extension is just the last character. */
  lemma ExtensionWithoutDot(path: string)
    requires '.' !in path
    requires path != []
    ensures Extension(path) == [path[|path| - 1]]
  {
    assert RFind(path, '.') == -1;
  }

  /** A path takes the binary route exactly when it ends in `.npy` (case-sensitive). */
  lemma BinaryIffNpySuffix(path: string)
    ensures IsBinary(path) <==> |path| >= 4 && path[|path| - 4..] == ".npy"
  {
    if |path| >= 4 && path[|path| - 4..] == ".npy" {
      assert path[|path| - 4] == '.';
      assert '.' in path;
      ExtensionFromLastDot(path);
      var k := RFind(path, '.');
      assert k == |path| - 4 by {
        assert path[|path| - 3] != '.' && path[|path| - 2] != '.' && path[|path| - 1] != '.';
      }
    }
    if IsBinary(path) {
      if '.' in path {
        ExtensionFromLastDot(path);
      } else if path != [] {
        ExtensionWithoutDot(path);
      }
    }
  }

  /**
    A picked file goes straight to loading, unchunked, exactly when its name
    ends in `.npy`; every other file is previewed with chunked reading selected.
  */
  lemma DispatchByExtension(path: string)
    requires path != []
    ensures Dispatch(path).Direct? <==> |path| >= 4 && path[|path| - 4..] == ".npy"
    ensures Dispatch(path).Direct? ==> !Dispatch(path).opts.shouldChunk
    ensures Dispatch(path).Preview? ==> Dispatch(path).initial.shouldChunk
    ensures !Dispatch(path).NoFile?
  {
    BinaryIffNpySuffix(path);
  }

}
