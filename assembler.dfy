/**
 * The document assembler's value side: what each page carries, where the PDF
 * goes and how the page list becomes one document.
 */
module Assembler {
  import opened Wrappers
  import opened PathNames

  /** Horizontal and vertical resolution from an image's metadata. */
  datatype Dpi = Dpi(x: real, y: real)

  /** Resolution used when an image carries none. */
  const DefaultDpi := Dpi(300.0, 300.0)

  /** Directory, under the working directory, that receives every PDF. */
  const OutputDir := "output_pdfs"

  /** What opening an image reports: its colour mode and its optional resolution. */
  datatype ImageInfo = ImageInfo(mode: string, dpi: Option<Dpi>)

  /** One decoded page: its file, whether it was converted to RGB, its resolution hint. */
  datatype Page = Page(source: string, recoded: bool, dpi: Dpi)

  /**
   * The PDF written by one conversion. Only `resolution`, the first page's
   * horizontal dpi, reaches the PDF: the `dpi` kept in each page records what
   * the image reported, and the later pages' values are not used.
   */
  datatype Document = Document(path: string, first: Page, rest: seq<Page>, resolution: real, quality: int)
  {
    function Pages(): (r: seq<Page>) {
      [first] + rest
    }
  }

  datatype ConvertError = NoImages | Unreadable(path: string)

  /**
   * The page for an image whose metadata is `info`: converted to RGB unless it
   * already is, with the image's own resolution or else 300 x 300 dpi.
   */
  function PageOf(source: string, info: ImageInfo): (p: Page)
    ensures p.source == source
    ensures p.recoded <==> info.mode != "RGB"
    ensures info.dpi == None ==> p.dpi == Dpi(300.0, 300.0)
    ensures info.dpi != None ==> p.dpi == info.dpi.value
  {
    Page(source, info.mode != "RGB", info.dpi.GetOr(DefaultDpi))
  }

  /** `<cwd>/output_pdfs/<name>.pdf`: the path always ends with the PDF name derived from the source. */
  function OutputPath(cwd: string, sourceName: string): (r: string)
    ensures EndsWith(r, OutputName(sourceName))
    ensures '/' !in sourceName ==> r == Join(cwd, OutputDir) + "/" + OutputName(sourceName)
  {
    OutputNameIsRelative(sourceName);
    JoinKeepsParts(Join(cwd, OutputDir), OutputName(sourceName));
    Join(Join(cwd, OutputDir), OutputName(sourceName))
  }

  /** For a source name without '/', the output name is a non-empty relative name. */
  lemma OutputNameIsRelative(sourceName: string)
    ensures '/' !in sourceName ==> |OutputName(sourceName)| > 0 && OutputName(sourceName)[0] != '/'
  {
    if '/' !in sourceName {
      var root := Root(sourceName);
      var name := OutputName(sourceName);
      if |root| > 0 {
        assert name[0] == root[0] == sourceName[0];
      } else {
        assert name[..|name| - 4] == [];
        assert name[|name| - 4..] == ".pdf";
        assert name[0] == '.';
      }
    }
  }

  /** The produced file is named after the source, so a second conversion of it overwrites the first. */
  lemma OutputPathNamedAfterSource(cwd: string, sourceName: string)
    requires '/' !in sourceName
    ensures Basename(OutputPath(cwd, sourceName)) == OutputName(sourceName)
  {
    var name := OutputName(sourceName);
    assert '/' !in name by {
      var root := Root(sourceName);
      assert root <= sourceName;
      assert forall j :: 0 <= j < |root| ==> root[j] == sourceName[j] && root[j] in sourceName;
      assert forall j :: |root| <= j < |name| ==> name[j] == ".pdf"[j - |root|];
    }
    BasenameOfJoin(Join(cwd, OutputDir), name);
  }

  /**
   * Builds the document from the decoded pages: the first page carries the
   * first image's horizontal resolution and the quality setting, the others follow.
   */
  function Assemble(path: string, pages: seq<Page>, quality: int): (d: Document)
    requires |pages| > 0
    ensures d.Pages() == pages
    ensures d.path == path && d.quality == quality
    ensures d.resolution == pages[0].dpi.x
  {
    Document(path, pages[0], pages[1..], pages[0].dpi.x, quality)
  }
}
