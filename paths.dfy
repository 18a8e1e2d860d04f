/**
 * Filesystem paths as lists of components, and the default-location rules
 * that `parse_pdfs` applies to its optional arguments.
 */
module Paths {
  import opened Wrappers

  /** A path as its list of components (pathlib's `parts`). */
  datatype Path = Path(parts: seq<string>) {

    /** `self / name` for a single component `name`. */
    function Join(name: string): (p: Path)
      ensures p.Parent() == this && p.Name() == name
      ensures |p.parts| == |parts| + 1 && parts <= p.parts
    {
      Path(parts + [name])
    }

    /** The path without its last component (itself when it has none). */
    function Parent(): Path {
      if parts == [] then this else Path(parts[..|parts| - 1])
    }

    /** The last component, `""` when there is none (pathlib's `name`). */
    function Name(): string {
      if parts == [] then "" else parts[|parts| - 1]
    }
  }

  const PdfsDirName: string := "pdfs"
  const OutputFileName: string := "extracted_content.csv"

  /** The three locations a run works with, once defaults are filled in. */
  datatype Locations = Locations(dataDir: Path, pdfsDir: Path, outputCsv: Path)

  /**
   * The defaults of `parse_pdfs`: an explicit argument is used as given;
   * the data directory falls back to the package's own `data` directory
   * (`packageDataDir`, which depends on where the package is installed);
   * the PDFs directory to `pdfs` inside the data directory, and the output
   * file to `extracted_content.csv` inside the data directory.
   */
  function ResolveLocations(dataDir: Option<Path>, outputCsv: Option<Path>, pdfsDir: Option<Path>,
                            packageDataDir: Path): (r: Locations)
    ensures dataDir.Some? ==> r.dataDir == dataDir.value
    ensures dataDir.None? ==> r.dataDir == packageDataDir
    ensures pdfsDir.Some? ==> r.pdfsDir == pdfsDir.value
    ensures pdfsDir.None? ==> r.pdfsDir.Parent() == r.dataDir && r.pdfsDir.Name() == PdfsDirName
    ensures outputCsv.Some? ==> r.outputCsv == outputCsv.value
    ensures outputCsv.None? ==> r.outputCsv.Parent() == r.dataDir && r.outputCsv.Name() == OutputFileName
  {
    var base := if dataDir.None? then packageDataDir else dataDir.value;
    var pdfs := if pdfsDir.None? then base.Join(PdfsDirName) else pdfsDir.value;
    var output := if outputCsv.None? then base.Join(OutputFileName) else outputCsv.value;
    Locations(base, pdfs, output)
  }

  /**
   * With both defaults in force, the output file sits beside the PDFs
   * directory, never inside it and never on it.
   */
  lemma DefaultOutputBesidePdfs(dataDir: Option<Path>, packageDataDir: Path)
    ensures var r := ResolveLocations(dataDir, None, None, packageDataDir);
            r.outputCsv.Parent() == r.pdfsDir.Parent() && r.outputCsv != r.pdfsDir
            && !(r.pdfsDir.parts <= r.outputCsv.parts)
  {
  }
}
