/**
  The two path operations of the `ResizePDF` constructor: the POSIX
  `os.path.basename` of the input path, and the output path built as
  `f'{output_path}/{filename}'`.
*/
module Paths {
  import opened Strings

  const Separator: char := '/'

  /** `os.path.basename(p)` on POSIX: everything after the last `/`. */
  function Basename(path: string): (name: string)
    ensures Separator !in name
    ensures IsSuffix(name, path)
    ensures |name| == |path| || path[|path| - |name| - 1] == Separator
  {
    AfterLast(path, Separator)
  }

  /** The output location: the output directory, a `/`, then the file name. */
  function OutputFile(outputDir: string, filename: string): (path: string)
    ensures |path| == |outputDir| + 1 + |filename|
    ensures path[..|outputDir|] == outputDir && path[|outputDir|] == Separator
    ensures IsSuffix(filename, path)
  {
    outputDir + [Separator] + filename
  }

  /** The output file keeps the input's name: the basename of the output path
      is the basename of the input path, whatever the output directory is. */
  lemma OutputKeepsName(outputDir: string, inputPath: string)
    ensures Basename(OutputFile(outputDir, Basename(inputPath))) == Basename(inputPath)
  {
    var name := Basename(inputPath);
    var out := OutputFile(outputDir, name);
    assert out[|out| - |name| - 1] == Separator;
    AfterLastUnique(out, Separator, name);
  }

  /** The basename of a path without `/` is the path itself. */
  lemma BasenameOfPlainName(name: string)
    requires Separator !in name
    ensures Basename(name) == name
  {
    AfterLastUnique(name, Separator, name);
  }
}
