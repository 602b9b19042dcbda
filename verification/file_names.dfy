/**
 * The extension that `StandardImageHandler.saveImage` hands to the image
 * writer: the text after the last '.' of the path.
 */
module FileNames {

  /** `s.lastIndexOf(c)`: the last position holding `c`, or -1. */
  function LastIndexOf(s: string, c: char): (k: int)
    ensures -1 <= k < |s|
    ensures k >= 0 ==> s[k] == c
    ensures forall i :: k < i < |s| ==> s[i] != c
  {
    if |s| == 0 then -1
    else if s[|s| - 1] == c then |s| - 1
    else LastIndexOf(s[..|s| - 1], c)
  }

  /** `getFileExtension`: `path.substring(path.lastIndexOf('.') + 1)`. */
  function FileExtension(path: string): (ext: string)
    ensures |ext| <= |path| && ext == path[|path| - |ext|..]
    ensures forall i :: 0 <= i < |ext| ==> ext[i] != '.'
    ensures |ext| < |path| ==> path[|path| - |ext| - 1] == '.'
    ensures (forall i :: 0 <= i < |path| ==> path[i] != '.') ==> ext == path
  {
    path[LastIndexOf(path, '.') + 1..]
  }

  /** The contract above pins the extension down: the longest dot-free suffix. */
  lemma FileExtensionUnique(path: string, ext: string)
    requires |ext| <= |path| && ext == path[|path| - |ext|..]
    requires forall i :: 0 <= i < |ext| ==> ext[i] != '.'
    requires |ext| < |path| ==> path[|path| - |ext| - 1] == '.'
    ensures FileExtension(path) == ext
  {
    var e := FileExtension(path);
    if |e| != |ext| {
      assert false;
    }
  }

  /** Naming a file `name.ext` with a dot-free `ext` gives `ext` back. */
  lemma FileExtensionOfName(name: string, ext: string)
    requires forall i :: 0 <= i < |ext| ==> ext[i] != '.'
    ensures FileExtension(name + "." + ext) == ext
  {
    var path := name + "." + ext;
    assert path[|path| - |ext|..] == ext;
    assert path[|path| - |ext| - 1] == '.';
    FileExtensionUnique(path, ext);
  }

  /** A path ending in '.' has the empty extension. */
  lemma FileExtensionTrailingDot(name: string)
    ensures FileExtension(name + ".") == ""
  {
    FileExtensionOfName(name, "");
    assert name + "." + "" == name + ".";
  }
}
