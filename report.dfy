/**
 * The stateful side of `src/lib.rs`: the configuration builder, the set-once
 * global configuration, the explicit `BugReportHandle`, and the reporter that
 * writes a bug notice to an output sink and returns the issue address.
 */
module Reporting {
  import opened Wrappers
  import opened Strings
  import opened UrlEncode
  import opened Template
  import opened Config

  /** Rust's `u32`, the type of a source line number. */
  type U32 = n: nat | n < 0x1_0000_0000

  const AlreadyInitialized := "Bug reporting already initialized"
  const NotInitialized := "Bug reporting not initialized. Call bug_rs::init() first."
  const LinkText := "File a bug report"

  /** An `Output` sink: everything written to it, in order. */
  class Sink {
    var log: seq<string>

    constructor()
      ensures log == []
    {
      log := [];
    }

    /** `write_str` and `write_fmt` alike append one piece of text. */
    method Write(s: string)
      modifies this
      ensures log == old(log) + [s]
    {
      log := log + [s];
    }
  }

  // ---------------------------------------------------------------------------
  // What the reporter writes

  /** The mode's answer, asking the terminal probe only in `Auto` mode. */
  function ShouldUseHyperlinks(mode: HyperlinkMode, probe: bool): bool {
    match mode
    case Auto => probe
    case Always => true
    case Never => false
  }

  function Header(file: string, line: U32): string {
    "\U{1F41B} BUG ENCOUNTERED in " + file + ":" + Decimal(line) + "\n"
  }

  function TemplateLine(name: string): string {
    "   Template: " + name + "\n"
  }

  const ParametersLine := "   Parameters:\n"

  function ParamLine(p: (string, string)): string {
    "     " + p.0 + ": " + p.1 + "\n"
  }

  function ParamLines(ps: Params): seq<string> {
    seq(|ps|, k requires 0 <= k < |ps| => ParamLine(ps[k]))
  }

  /** The address, as a hyperlink or spelled out. */
  function LinkLine(url: string, useLink: bool): string {
    if useLink then "   " + CreateTerminalHyperlink(url, LinkText) + "\n"
    else "   File a bug report: " + url + "\n"
  }

  function ErrorLine(e: string): string {
    "   Error generating bug report: " + e + "\n"
  }

  /** What a successful report writes. */
  function SuccessWrites(url: string, name: string, ps: Params, file: string, line: U32,
                         useLink: bool): seq<string>
  {
    [Header(file, line), TemplateLine(name)]
    + (if ps != [] then [ParametersLine] + ParamLines(ps) else [])
    + [LinkLine(url, useLink), "\n"]
  }

  /** Everything `report_bug_with_output` writes, piece by piece. */
  function ReportWrites(c: BugReportConfig, name: string, ps: Params, file: string, line: U32,
                        probe: bool): seq<string>
  {
    match GenerateUrl(c, name, ps)
    case Ok(url) => SuccessWrites(url, name, ps, file, line, ShouldUseHyperlinks(c.useHyperlinks, probe))
    case Err(e) => [Header(file, line), ErrorLine(e), "\n"]
  }

  /** What `report_bug_with_output` returns: the address, or the empty string on error. */
  function ReportResult(c: BugReportConfig, name: string, ps: Params): string {
    match GenerateUrl(c, name, ps)
    case Ok(url) => url
    case Err(_) => ""
  }

  /** The result is non-empty exactly when an address could be generated, and
      then it is that address. */
  lemma ReportResultIff(c: BugReportConfig, name: string, ps: Params)
    ensures ReportResult(c, name, ps) != [] <==> GenerateUrl(c, name, ps).Ok?
    ensures GenerateUrl(c, name, ps).Ok? ==> ReportResult(c, name, ps) == GenerateUrl(c, name, ps).value
  {
    var r := GenerateUrl(c, name, ps);
    if r.Ok? {
      assert |BaseUrl(c.owner, c.repo)| > 0;
      assert |r.value| > 0;
    }
  }

  /** On an error exactly three pieces are written: the header, the error and a
      blank line. */
  lemma ErrorReport(c: BugReportConfig, name: string, ps: Params, file: string, line: U32, probe: bool)
    requires GenerateUrl(c, name, ps).Err?
    ensures var e := GenerateUrl(c, name, ps).error;
      ReportWrites(c, name, ps, file, line, probe) == [Header(file, line), ErrorLine(e), "\n"]
    ensures ReportResult(c, name, ps) == ""
  {
  }

  /** On success the `Parameters:` line is written exactly when there are parameters. */
  lemma ParametersBlockIff(c: BugReportConfig, name: string, ps: Params, file: string, line: U32,
                           probe: bool)
    requires GenerateUrl(c, name, ps).Ok?
    ensures ParametersLine in ReportWrites(c, name, ps, file, line, probe) <==> ps != []
  {
    var w := ReportWrites(c, name, ps, file, line, probe);
    if ps == [] {
      var url := GenerateUrl(c, name, ps).value;
      var link := LinkLine(url, ShouldUseHyperlinks(c.useHyperlinks, probe));
      assert w == [Header(file, line), TemplateLine(name), link, "\n"];
      assert Header(file, line)[0] != ParametersLine[0];
      assert TemplateLine(name)[3] != ParametersLine[3];
      assert link[3] != ParametersLine[3];
    } else {
      assert w[2] == ParametersLine;
    }
  }

  /** On success the last two pieces are the address line and a blank line. */
  lemma SuccessEnding(c: BugReportConfig, name: string, ps: Params, file: string, line: U32, probe: bool)
    requires GenerateUrl(c, name, ps).Ok?
    ensures var w, url := ReportWrites(c, name, ps, file, line, probe), GenerateUrl(c, name, ps).value;
      |w| == 4 + (if ps == [] then 0 else 1 + |ps|)
      && w[|w| - 2] == LinkLine(url, ShouldUseHyperlinks(c.useHyperlinks, probe))
      && w[|w| - 1] == "\n"
  {
  }

  /** The spelled-out address line ends with the address itself, and the
      hyperlink line's link reads back to it. */
  lemma LinkLineCarriesUrl(url: string, useLink: bool)
    requires '\U{1B}' !in url
    ensures var l := LinkLine(url, useLink);
      |l| > 4 && l[|l| - 1] == '\n'
      && (useLink ==> ParseHyperlink(l[3..|l| - 1]) == Some((url, LinkText)))
      && (!useLink ==> l[|l| - 1 - |url|..|l| - 1] == url)
  {
    var l := LinkLine(url, useLink);
    if useLink {
      var h := CreateTerminalHyperlink(url, LinkText);
      assert l == "   " + h + "\n";
      assert l[3..|l| - 1] == h;
      HyperlinkRoundTrip(url, LinkText);
    } else {
      assert l == "   File a bug report: " + url + "\n";
    }
  }

  /** For an owner and repository without escape characters, the address line
      of a successful report carries the generated address back out. */
  lemma ReportedLinkReadsBack(c: BugReportConfig, name: string, ps: Params, useLink: bool)
    requires '\U{1B}' !in c.owner && '\U{1B}' !in c.repo
    requires GenerateUrl(c, name, ps).Ok?
    ensures var url, l := GenerateUrl(c, name, ps).value, LinkLine(GenerateUrl(c, name, ps).value, useLink);
      && (useLink ==> ParseHyperlink(l[3..|l| - 1]) == Some((url, LinkText)))
      && (!useLink ==> l[|l| - 1 - |url|..|l| - 1] == url)
  {
    GenerateUrlNoEscape(c, name, ps);
    LinkLineCarriesUrl(GenerateUrl(c, name, ps).value, useLink);
  }

  // ---------------------------------------------------------------------------
  // The global configuration

  /** The process-wide configuration cell, written at most once. */
  class Global {
    var cell: Option<BugReportConfig>

    constructor()
      ensures cell == None
    {
      cell := None;
    }

    /** `generate_github_url`: `generate_url` over the committed configuration. */
    function GenerateGithubUrl(name: string, ps: Params): (r: Result<string, string>)
      reads this
      ensures cell.None? ==> r == Err(NotInitialized)
      ensures cell.Some? ==> r == GenerateUrl(cell.value, name, ps)
    {
      match cell
      case None => Err(NotInitialized)
      case Some(c) => GenerateUrl(c, name, ps)
    }

    /** `get_hyperlink_mode`: `Never` before anything is committed. */
    function HyperlinkModeOf(): (m: HyperlinkMode)
      reads this
      ensures cell.None? ==> m == Never
      ensures cell.Some? ==> m == cell.value.useHyperlinks
    {
      match cell
      case None => Never
      case Some(c) => c.useHyperlinks
    }
  }

  // ---------------------------------------------------------------------------
  // BugReportConfigBuilder

  class Builder {
    var config: BugReportConfig

    /** `init`. */
    constructor(owner: string, repo: string)
      ensures config == NewConfig(owner, repo)
    {
      config := NewConfig(owner, repo);
    }

    method AddTemplate(name: string, t: IssueTemplate)
      modifies this
      ensures config == WithTemplate(old(config), name, t)
    {
      config := config.(templates := config.templates[name := t]);
    }

    method AddTemplateFile(name: string, f: TemplateFile)
      modifies this
      ensures config == WithTemplateFile(old(config), name, f)
    {
      config := config.(templateFiles := config.templateFiles[name := f]);
    }

    method Hyperlinks(mode: HyperlinkMode)
      modifies this
      ensures config == WithHyperlinks(old(config), mode)
    {
      config := config.(useHyperlinks := mode);
    }

    /** `build`: commits the configuration unless one is already committed. */
    method Build(g: Global) returns (r: Result<(), string>)
      modifies g
      ensures old(g.cell).None? ==> r == Ok(()) && g.cell == Some(config)
      ensures old(g.cell).Some? ==> r == Err(AlreadyInitialized) && g.cell == old(g.cell)
    {
      match g.cell {
        case Some(_) =>
          return Err(AlreadyInitialized);
        case None =>
          g.cell := Some(config);
      }
      r := Ok(());
    }
  }

  /** The assembly half of `generate_url`: `query_params` pushed field by field. */
  method AssembleUrl(owner: string, repo: string, filled: IssueTemplate) returns (url: string)
    ensures url == BuildUrl(owner, repo, filled)
  {
    url := "https://github.com/" + owner + "/" + repo + "/issues/new";
    assert url == BaseUrl(owner, repo);
    var queryParams: seq<string> := [];
    if filled.title != [] {
      var e := Encode(filled.title);
      queryParams := queryParams + ["title=" + e];
    }
    if filled.body != [] {
      var e := Encode(filled.body);
      queryParams := queryParams + ["body=" + e];
    }
    if filled.labels != [] {
      var e := Encode(Join(filled.labels, ","));
      queryParams := queryParams + ["labels=" + e];
    }
    QueryParamsOrder(filled);
    assert queryParams == QueryParams(filled);
    if queryParams != [] {
      url := url + "?";
      url := url + Join(queryParams, "&");
    }
  }

  /** The success branch of `report_bug_with_output`: header, template name,
      parameters, the address and a blank line. */
  method WriteSuccess(url: string, name: string, ps: Params, file: string, line: U32, useLink: bool,
                      output: Sink)
    modifies output
    ensures output.log == old(output.log) + SuccessWrites(url, name, ps, file, line, useLink)
  {
    output.Write(Header(file, line));
    output.Write(TemplateLine(name));
    WriteParams(ps, output);
    if useLink {
      output.Write("   " + CreateTerminalHyperlink(url, LinkText) + "\n");
    } else {
      output.Write("   File a bug report: " + url + "\n");
    }
    output.Write("\n");
  }

  /** The `Parameters:` block: written only when there are parameters, one line each. */
  method WriteParams(ps: Params, output: Sink)
    modifies output
    ensures output.log == old(output.log) + (if ps != [] then [ParametersLine] + ParamLines(ps) else [])
  {
    if ps != [] {
      output.Write("   Parameters:\n");
      for i := 0 to |ps|
        invariant output.log == old(output.log) + [ParametersLine] + ParamLines(ps[..i])
      {
        output.Write("     " + ps[i].0 + ": " + ps[i].1 + "\n");
        assert ParamLines(ps[..i + 1]) == ParamLines(ps[..i]) + [ParamLine(ps[i])];
      }
      assert ps[..|ps|] == ps;
    }
  }

  /**
   * Two builders committed one after the other: the first succeeds, the
   * second is refused, and the first configuration stays in place.
   */
  method InitTwice(owner1: string, repo1: string, owner2: string, repo2: string)
    returns (first: Result<(), string>, second: Result<(), string>, stored: Option<BugReportConfig>)
    ensures first == Ok(()) && second == Err(AlreadyInitialized)
    ensures stored == Some(NewConfig(owner1, repo1))
  {
    var g := new Global();
    var b1 := new Builder(owner1, repo1);
    first := b1.Build(g);
    var b2 := new Builder(owner2, repo2);
    second := b2.Build(g);
    stored := g.cell;
  }

  // ---------------------------------------------------------------------------
  // BugReportHandle

  class Handle {
    var config: BugReportConfig

    /** `init_handle`. */
    constructor(owner: string, repo: string)
      ensures config == NewConfig(owner, repo)
    {
      config := NewConfig(owner, repo);
    }

    /** `#[derive(Clone)]`: a separate handle with an equal configuration. */
    method Clone() returns (h: Handle)
      ensures fresh(h) && h.config == config
    {
      h := new Handle(config.owner, config.repo);
      h.config := config;
    }

    method AddTemplate(name: string, t: IssueTemplate)
      modifies this
      ensures config == WithTemplate(old(config), name, t)
    {
      config := config.(templates := config.templates[name := t]);
    }

    method AddTemplateFile(name: string, f: TemplateFile)
      modifies this
      ensures config == WithTemplateFile(old(config), name, f)
    {
      config := config.(templateFiles := config.templateFiles[name := f]);
    }

    method Hyperlinks(mode: HyperlinkMode)
      modifies this
      ensures config == WithHyperlinks(old(config), mode)
    {
      config := config.(useHyperlinks := mode);
    }

    /** `generate_url`: look the template up and fill it, then assemble the address. */
    method GenerateUrl(name: string, ps: Params) returns (r: Result<string, string>)
      ensures r == Config.GenerateUrl(config, name, ps)
    {
      var found := FilledTemplate(name, ps);
      match found {
        case Err(e) =>
          return Err(e);
        case Ok(filled) =>
          var url := AssembleUrl(config.owner, config.repo, filled);
          return Ok(url);
      }
    }

    /** The first half of `generate_url`: the filled template, or why there is none. */
    method FilledTemplate(name: string, ps: Params) returns (r: Result<IssueTemplate, string>)
      ensures r == Lookup(config, name, ps)
    {
      if name in config.templates {
        var filled := FillParams(config.templates[name], ps);
        return Ok(filled);
      } else if name in config.templateFiles {
        var f := config.templateFiles[name];
        var checked := Validate(f, ps);
        if checked.Err? {
          return Err(checked.error);
        }
        var parsed := Parse(f);
        if parsed.Err? {
          return Err(parsed.error);
        }
        var filled := FillParams(parsed.value, ps);
        return Ok(filled);
      } else {
        return Err(NotFound(name));
      }
    }

    /** `report_bug_with_output`, with the terminal probe's answer as `probe`. */
    method ReportBugWithOutput(name: string, ps: Params, file: string, line: U32, probe: bool,
                               output: Sink)
      returns (s: string)
      modifies output
      ensures output.log == old(output.log) + ReportWrites(config, name, ps, file, line, probe)
      ensures s == ReportResult(config, name, ps)
    {
      var res := GenerateUrl(name, ps);
      ghost var start := output.log;
      match res {
        case Ok(url) =>
          var useLinks := ShouldUseHyperlinks(config.useHyperlinks, probe);
          WriteSuccess(url, name, ps, file, line, useLinks, output);
          s := url;
        case Err(e) =>
          output.Write(Header(file, line));
          output.Write(ErrorLine(e));
          output.Write("\n");
          assert output.log == start + [Header(file, line), ErrorLine(e), "\n"];
          s := "";
      }
    }

    /** `report_bug`: the same report written to a sink nobody reads. */
    method ReportBug(name: string, ps: Params, file: string, line: U32) returns (s: string)
      ensures s == ReportResult(config, name, ps)
    {
      var discard := new Sink();
      s := ReportBugWithOutput(name, ps, file, line, false, discard);
    }
  }

  /** A clone is independent: adding a template to it leaves the original alone. */
  method CloneIndependent(owner: string, repo: string, name: string, t: IssueTemplate)
    returns (original: BugReportConfig, copy: BugReportConfig)
    ensures original == NewConfig(owner, repo)
    ensures copy == WithTemplate(NewConfig(owner, repo), name, t)
  {
    var h := new Handle(owner, repo);
    var h2 := h.Clone();
    h2.AddTemplate(name, t);
    original, copy := h.config, h2.config;
  }
}
