/**
 * The content root `src/` as the handlers of app.py see it, and the Markdown
 * converter that each handler keeps in `self.markdown`.
 */
module SiteContent {
  import opened Wrappers
  import opened Text

  /** The `Meta` attribute of the converter: each front-matter key with its list of values. */
  type Meta = map<string, seq<string>>

  /** What one call of the (external) Markdown converter yields for one text. */
  datatype Conversion = Conversion(html: string, meta: Meta)

  /**
   * The content root: the text of every regular file by its path relative to
   * `src/`; the converter, a fixed function of the text it is given (extensions
   * "extra", "codehilite", "meta", output format "html5"); and the two directory
   * enumerations the code performs, in the order the operating system yields them:
   * `blogScan`, the Markdown files directly inside `blog/`, and `treeScan`, every
   * path at any depth whose last component contains a dot (the recursive glob
   * of `generate`), both relative to `src/`.
   */
  datatype Site = Site(
    files: map<string, string>,
    convert: string -> Conversion,
    blogScan: seq<string>,
    treeScan: seq<string>)

  /** The last path component: the text after the last `/`. */
  function FileName(path: string): (r: string)
    ensures EndsWith(path, r)
    ensures forall k :: 0 <= k < |r| ==> r[k] != '/'
    ensures |r| < |path| ==> path[|path| - |r| - 1] == '/'
  {
    if path == [] then []
    else if path[|path| - 1] == '/' then []
    else
      var r := FileName(path[..|path| - 1]);
      assert path[..|path| - 1][|path| - 1 - |r|..] == path[|path| - 1 - |r|..|path| - 1];
      r + [path[|path| - 1]]
  }

  /**
   * A Markdown converter object. Each `convert` call overwrites `Meta` with the
   * metadata of the text just converted, so `Meta` must be read right after the
   * call that produced it.
   */
  class Renderer {
    const convert: string -> Conversion
    var meta: Meta

    constructor (convert: string -> Conversion)
      ensures this.convert == convert && meta == map[]
    {
      this.convert := convert;
      meta := map[];
    }

    method Convert(text: string) returns (html: string)
      modifies this
      ensures html == convert(text).html
      ensures meta == convert(text).meta
    {
      var c := convert(text);
      html := c.html;
      meta := c.meta;
    }
  }
}
