/** Reading a Homebrew formula's name, version and PyPI project name out of
    its Ruby text (`extract_formula_info`, scripts/check_updates.py:38-75).
    The file read is not modelled: the text and the path are passed in. */
module FormulaReader {
  import opened Wrappers
  import opened Text
  import opened Matchers
  import opened Archive

  /** `FormulaInfo`: the lower-cased class name, the current version, the
      PyPI project name and the file the formula came from. */
  datatype FormulaInfo = FormulaInfo(name: string, version: string, pypiName: string, filePath: string)

  /** `group(1).replace("_", "-").lower()` */
  function PypiName(n: string): string {
    Lower(ReplaceChar(n, '_', '-'))
  }

  /** `extract_formula_info` on the formula text `content`. */
  function ExtractFormulaInfo(content: string, path: string): (r: Option<FormulaInfo>)
    ensures Search(content, ClassDecl).None? ==> r.None?
    ensures Search(content, QuotedAfter("url")).None? ==> r.None?
    ensures r.Some? ==> r.value.name == Lower(Search(content, ClassDecl).value)
    ensures r.Some? ==> r.value.filePath == path
    ensures r.Some? ==>
      var url := Search(content, QuotedAfter("url")).value;
      match PypiTail(url)
      case Some(t) => r.value.pypiName == PypiName(t.name) && r.value.version == t.version
      case None => r.value.pypiName == r.value.name && Search(content, QuotedAfter("version")) == Some(r.value.version)
    ensures r.None? && Search(content, ClassDecl).Some? && Search(content, QuotedAfter("url")).Some? ==>
      PypiTail(Search(content, QuotedAfter("url")).value).None? && Search(content, QuotedAfter("version")).None?
  {
    match Search(content, ClassDecl)
    case None => None
    case Some(className) =>
      var name := Lower(className);
      match Search(content, QuotedAfter("url"))
      case None => None
      case Some(url) =>
        match PypiTail(url)
        case Some(t) => Some(FormulaInfo(name, t.version, PypiName(t.name), path))
        case None =>
          match Search(content, QuotedAfter("version"))
          case None => None
          case Some(version) => Some(FormulaInfo(name, version, name, path))
  }

  /** When the first `url "..."` of a formula ends in `/<name>-<version>.tar.gz`
      with a PyPI-shaped version, that version is the formula's current version
      and the normalised name is its PyPI name, whatever `version` lines the
      formula also has. */
  lemma VersionComesFromUrlTail(content: string, path: string, name: string, version: string)
    requires Search(content, ClassDecl).Some? && Search(content, QuotedAfter("url")).Some?
    requires Anchored(Search(content, QuotedAfter("url")).value, TailText(name, version))
    requires NameToken(name) && VersionShaped(version)
    ensures ExtractFormulaInfo(content, path).Some?
    ensures ExtractFormulaInfo(content, path).value.version == version
    ensures ExtractFormulaInfo(content, path).value.pypiName == PypiName(name)
  {
    PypiTailComplete(Search(content, QuotedAfter("url")).value, name, version);
  }
}
