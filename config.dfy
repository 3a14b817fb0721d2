/**
 * The reporter's configuration (`BugReportConfig` in `src/lib.rs`) and the
 * issue URL it produces: template lookup, the `/issues/new` address and its
 * `title`, `body` and `labels` query parameters, and the terminal hyperlink
 * the reporter may wrap that address in.
 */
module Config {
  import opened Wrappers
  import opened Strings
  import opened UrlEncode
  import opened Template

  /** When the reporter prints the address as a terminal hyperlink. */
  datatype HyperlinkMode = Auto | Always | Never

  datatype BugReportConfig = BugReportConfig(
    owner: string,
    repo: string,
    templates: map<string, IssueTemplate>,
    templateFiles: map<string, TemplateFile>,
    useHyperlinks: HyperlinkMode)

  /** What `init` and `init_handle` start from: no templates, automatic hyperlinks. */
  function NewConfig(owner: string, repo: string): BugReportConfig {
    BugReportConfig(owner, repo, map[], map[], Auto)
  }

  /** `add_template`: the name now maps to the template, replacing any earlier one. */
  function WithTemplate(c: BugReportConfig, name: string, t: IssueTemplate): BugReportConfig {
    c.(templates := c.templates[name := t])
  }

  /** `add_template_file`. */
  function WithTemplateFile(c: BugReportConfig, name: string, f: TemplateFile): BugReportConfig {
    c.(templateFiles := c.templateFiles[name := f])
  }

  /** `hyperlinks`. */
  function WithHyperlinks(c: BugReportConfig, mode: HyperlinkMode): BugReportConfig {
    c.(useHyperlinks := mode)
  }

  function NotFound(name: string): string {
    "Template '" + name + "' not found"
  }

  // ---------------------------------------------------------------------------
  // BugReportHandle::generate_url

  /**
   * The filled template `generate_url` puts into the address: an inline
   * template is looked up first and filled, then a template file, which is
   * validated, parsed and filled.
   */
  function Lookup(c: BugReportConfig, name: string, ps: Params): (r: Result<IssueTemplate, string>)
    ensures r == Err(NotFound(name)) <==> name !in c.templates && name !in c.templateFiles
  {
    if name in c.templates then Ok(Fill(c.templates[name], ps))
    else if name in c.templateFiles then
      NotFoundDistinct(c, name, ps);
      FromTemplateFile(c.templateFiles[name], ps)
    else Err(NotFound(name))
  }

  /** No error of a template file reads like a missing template. */
  lemma NotFoundDistinct(c: BugReportConfig, name: string, ps: Params)
    requires name !in c.templates && name in c.templateFiles
    ensures FromTemplateFile(c.templateFiles[name], ps) != Err(NotFound(name))
  {
    var f := c.templateFiles[name];
    NotFoundHead(name);
    if Validate(f, ps).Err? {
      ValidateErrorHead(f, ps);
    } else if Parse(f).Err? {
      assert EmptyFile[9] == 'f' && NoTitle[9] == 'm';
    }
  }

  lemma NotFoundHead(name: string)
    ensures |NotFound(name)| > 9 && NotFound(name)[0] == 'T' && NotFound(name)[9] == '\''
  {
    assert NotFound(name) == "Template '" + (name + "' not found");
  }

  /** A parameter error starts with `M` (missing) or `U` (unused). */
  lemma ValidateErrorHead(f: TemplateFile, ps: Params)
    requires Validate(f, ps).Err?
    ensures Validate(f, ps).error != [] && Validate(f, ps).error[0] in {'M', 'U'}
  {
    var phs := Placeholders(f.content);
    match FirstMissing(phs, Keys(ps))
    case Some(p) =>
      assert ("Missing required parameter: " + p)[0] == 'M';
    case None =>
      match FirstUnused(ps, phs)
      case Some(k) =>
        assert ("Unused parameter: " + k)[0] == 'U';
      case None =>
  }

  /** The address without a query: `https://github.com/<owner>/<repo>/issues/new`. */
  function BaseUrl(owner: string, repo: string): (u: string)
    ensures |u| == |owner| + |repo| + 31
  {
    "https://github.com/" + owner + "/" + repo + "/issues/new"
  }

  /** The non-empty fields, in the order title, body, labels, with the labels
      joined by commas. */
  function Fields(t: IssueTemplate): seq<(string, string)> {
    (if t.title != [] then [("title", t.title)] else [])
    + (if t.body != [] then [("body", t.body)] else [])
    + (if t.labels != [] then [("labels", Join(t.labels, ","))] else [])
  }

  /** One `name=value` query parameter per non-empty field, value percent-encoded. */
  function QueryParams(t: IssueTemplate): (q: seq<string>)
    ensures |q| == |Fields(t)|
  {
    QueryOf(Fields(t))
  }

  function QueryOf(fs: seq<(string, string)>): (q: seq<string>)
    ensures |q| == |fs|
  {
    seq(|fs|, k requires 0 <= k < |fs| => fs[k].0 + "=" + Encoded(fs[k].1))
  }

  lemma QueryOfConcat(a: seq<(string, string)>, b: seq<(string, string)>)
    ensures QueryOf(a + b) == QueryOf(a) + QueryOf(b)
  {
    assert forall k :: 0 <= k < |b| ==> (a + b)[|a| + k] == b[k];
  }

  /** The parameters as the source pushes them: `title=`, `body=`, `labels=`,
      each only for a non-empty field, in that order. */
  lemma QueryParamsOrder(t: IssueTemplate)
    ensures QueryParams(t)
         == (if t.title != [] then ["title=" + Encoded(t.title)] else [])
          + (if t.body != [] then ["body=" + Encoded(t.body)] else [])
          + (if t.labels != [] then ["labels=" + Encoded(Join(t.labels, ","))] else [])
  {
    var a := if t.title != [] then [("title", t.title)] else [];
    var b := if t.body != [] then [("body", t.body)] else [];
    var c := if t.labels != [] then [("labels", Join(t.labels, ","))] else [];
    assert Fields(t) == a + b + c;
    QueryOfConcat(a, b);
    QueryOfConcat(a + b, c);
    assert "title=" == "title" + "=" && "body=" == "body" + "=" && "labels=" == "labels" + "=";
    assert QueryOf(a) == (if t.title != [] then ["title=" + Encoded(t.title)] else []);
    assert QueryOf(b) == (if t.body != [] then ["body=" + Encoded(t.body)] else []);
    assert QueryOf(c) == (if t.labels != [] then ["labels=" + Encoded(Join(t.labels, ","))] else []);
  }

  /** The issue address for a filled template: a query only when there is a parameter. */
  function BuildUrl(owner: string, repo: string, t: IssueTemplate): string {
    var q := QueryParams(t);
    if q == [] then BaseUrl(owner, repo) else BaseUrl(owner, repo) + "?" + Join(q, "&")
  }

  /** `BugReportHandle::generate_url`, as a value. */
  function GenerateUrl(c: BugReportConfig, name: string, ps: Params): (r: Result<string, string>)
    ensures r.Ok? <==> Lookup(c, name, ps).Ok?
    ensures r.Err? ==> r.error == Lookup(c, name, ps).error
    ensures r.Ok? ==> BaseUrl(c.owner, c.repo) <= r.value
  {
    match Lookup(c, name, ps)
    case Err(e) => Err(e)
    case Ok(t) => Ok(BuildUrl(c.owner, c.repo, t))
  }

  /** An inline template wins over a template file of the same name and never fails. */
  lemma InlineShadowsFile(c: BugReportConfig, name: string, ps: Params)
    requires name in c.templates
    ensures GenerateUrl(c, name, ps) == GenerateUrl(c.(templateFiles := c.templateFiles - {name}), name, ps)
    ensures GenerateUrl(c, name, ps).Ok?
  {
  }

  /** The not-found error is reported exactly for a name in neither map. */
  lemma NotFoundIff(c: BugReportConfig, name: string, ps: Params)
    ensures GenerateUrl(c, name, ps) == Err(NotFound(name))
        <==> name !in c.templates && name !in c.templateFiles
  {
    var r := Lookup(c, name, ps);
    if r.Err? {
      assert GenerateUrl(c, name, ps) == Err(r.error);
    }
  }

  /** A template file's errors come back unchanged. */
  lemma FileErrorsPropagate(c: BugReportConfig, name: string, ps: Params)
    requires name !in c.templates && name in c.templateFiles
    requires FromTemplateFile(c.templateFiles[name], ps).Err?
    ensures GenerateUrl(c, name, ps) == Err(FromTemplateFile(c.templateFiles[name], ps).error)
  {
  }

  /** The address has no `?` exactly when title, body and labels are all empty. */
  lemma NoQueryIff(owner: string, repo: string, t: IssueTemplate)
    ensures BuildUrl(owner, repo, t) == BaseUrl(owner, repo)
        <==> t.title == [] && t.body == [] && t.labels == []
  {
    if QueryParams(t) != [] {
      assert |BuildUrl(owner, repo, t)| > |BaseUrl(owner, repo)|;
    }
  }

  // ---------------------------------------------------------------------------
  // Reading the query back

  /** A `name=value` parameter: its name and its value's bytes, when well formed. */
  function DecodePair(p: string): (string, Option<seq<Byte>>) {
    var kv := Split(p, '=');
    if |kv| == 2 then (kv[0], DecodeBytes(kv[1])) else (p, None)
  }

  /** A query string read back: split on `&`, each part decoded. */
  function DecodeQuery(q: string): seq<(string, Option<seq<Byte>>)> {
    var parts := Split(q, '&');
    seq(|parts|, k requires 0 <= k < |parts| => DecodePair(parts[k]))
  }

  /** The fields as the query should carry them: names and UTF-8 bytes. */
  function FieldBytes(t: IssueTemplate): seq<(string, Option<seq<Byte>>)> {
    var fs := Fields(t);
    seq(|fs|, k requires 0 <= k < |fs| => (fs[k].0, Some(Utf8(fs[k].1))))
  }

  /**
   * The query round trip: after the `?`, the address splits back into the
   * non-empty fields in order, each with its original bytes.
   */
  lemma QueryRoundTrip(owner: string, repo: string, t: IssueTemplate)
    requires t.title != [] || t.body != [] || t.labels != []
    ensures var u, n := BuildUrl(owner, repo, t), |BaseUrl(owner, repo)|;
      n < |u| && u[..n + 1] == BaseUrl(owner, repo) + "?" && DecodeQuery(u[n + 1..]) == FieldBytes(t)
  {
    assert QueryParams(t) != [];
    var base, query := BaseUrl(owner, repo), Join(QueryParams(t), "&");
    var u := BuildUrl(owner, repo, t);
    assert u == (base + "?") + query;
    assert u[..|base| + 1] == base + "?";
    assert u[|base| + 1..] == query;
    JoinedQueryRoundTrip(t);
  }

  /** The joined parameters split and decode back into the fields. */
  lemma JoinedQueryRoundTrip(t: IssueTemplate)
    requires QueryParams(t) != []
    ensures DecodeQuery(Join(QueryParams(t), "&")) == FieldBytes(t)
  {
    var fs, q := Fields(t), QueryParams(t);
    forall k | 0 <= k < |q| ensures '&' !in q[k] && DecodePair(q[k]) == FieldBytes(t)[k] {
      FieldNames(t, k);
      ParamRoundTrip(fs[k].0, fs[k].1);
    }
    SplitJoin(q, '&');
  }

  lemma FieldNames(t: IssueTemplate, k: nat)
    requires k < |Fields(t)|
    ensures '=' !in Fields(t)[k].0 && '&' !in Fields(t)[k].0
  {
    assert Fields(t)[k].0 in {"title", "body", "labels"};
  }

  /** One parameter read back. */
  lemma ParamRoundTrip(name: string, text: string)
    requires '=' !in name && '&' !in name
    ensures '&' !in name + "=" + Encoded(text)
    ensures DecodePair(name + "=" + Encoded(text)) == (name, Some(Utf8(text)))
  {
    var e := Encoded(text);
    EncodedNoSeparator(text);
    SplitPair(name, e);
    DecodeEncode(Utf8(text));
  }

  /** An encoded value holds neither `&` nor `=`, so it cannot end a parameter early. */
  lemma EncodedNoSeparator(text: string)
    ensures '&' !in Encoded(text) && '=' !in Encoded(text)
  {
    var e := Encoded(text);
    EncodeAlphabet(Utf8(text));
    forall k | 0 <= k < |e| ensures e[k] != '&' && e[k] != '=' {
      assert IsEncodedChar(e[k]);
    }
  }

  lemma SplitPair(name: string, value: string)
    requires '=' !in name && '=' !in value
    ensures Split(name + "=" + value, '=') == [name, value]
  {
    assert Join([name, value], "=") == name + "=" + value;
    SplitJoin([name, value], '=');
  }

  // ---------------------------------------------------------------------------
  // The configuration methods and the address

  /** After `add_template`, the name yields that template, filled. */
  lemma AddedTemplateUsed(c: BugReportConfig, name: string, t: IssueTemplate, ps: Params)
    ensures GenerateUrl(WithTemplate(c, name, t), name, ps) == Ok(BuildUrl(c.owner, c.repo, Fill(t, ps)))
  {
  }

  /** After `add_template_file`, a name without an inline template yields the
      file's outcome. */
  lemma AddedFileUsed(c: BugReportConfig, name: string, f: TemplateFile, ps: Params)
    requires name !in c.templates
    ensures GenerateUrl(WithTemplateFile(c, name, f), name, ps)
         == match FromTemplateFile(f, ps)
            case Err(e) => Err(e)
            case Ok(t) => Ok(BuildUrl(c.owner, c.repo, t))
  {
  }

  /** Adding under one name, or changing the hyperlink mode, leaves every
      other name's address as it was. */
  lemma OtherNamesUnchanged(c: BugReportConfig, name: string, t: IssueTemplate, f: TemplateFile,
                            mode: HyperlinkMode, other: string, ps: Params)
    requires other != name
    ensures GenerateUrl(WithTemplate(c, name, t), other, ps) == GenerateUrl(c, other, ps)
    ensures GenerateUrl(WithTemplateFile(c, name, f), other, ps) == GenerateUrl(c, other, ps)
    ensures GenerateUrl(WithHyperlinks(c, mode), other, ps) == GenerateUrl(c, other, ps)
  {
  }

  /** A template with only labels gives just a `labels` parameter holding
      the comma-joined labels, encoded. */
  lemma OnlyLabels(owner: string, repo: string, labels: seq<string>)
    requires labels != []
    ensures BuildUrl(owner, repo, IssueTemplate("", "", labels))
         == BaseUrl(owner, repo) + "?labels=" + Encoded(Join(labels, ","))
  {
    var t := IssueTemplate("", "", labels);
    QueryParamsOrder(t);
    assert QueryParams(t) == ["labels=" + Encoded(Join(labels, ","))];
    assert BaseUrl(owner, repo) + "?" + ("labels" + "=" + Encoded(Join(labels, ",")))
        == BaseUrl(owner, repo) + "?labels=" + Encoded(Join(labels, ","));
  }

  /** Labels are joined with a comma and the comma encoded: `labels=bug%2Ccrash`. */
  lemma LabelsExample(owner: string, repo: string)
    ensures BuildUrl(owner, repo, IssueTemplate("", "", ["bug", "crash"]))
         == BaseUrl(owner, repo) + "?labels=" + "bug%2Ccrash"
  {
    var labels := ["bug", "crash"];
    OnlyLabels(owner, repo, labels);
    assert Join(labels, ",") == "bug" + [','] + "crash";
    BugCrash();
  }

  lemma BugCrash()
    ensures Encoded("bug" + [','] + "crash") == "bug%2Ccrash"
  {
    AroundOne("bug", ',', "crash");
    EncodeAscii(',');
    assert EncodeByte(',' as int) == "%2C";
    assert "bug" + "%2C" + "crash" == "bug%2Ccrash";
  }

  /** A template with only a title gives just a `title` parameter. */
  lemma OnlyTitle(owner: string, repo: string, title: string)
    requires title != []
    ensures BuildUrl(owner, repo, IssueTemplate(title, "", []))
         == BaseUrl(owner, repo) + "?title=" + Encoded(title)
  {
    var t := IssueTemplate(title, "", []);
    var p := "title=" + Encoded(title);
    QueryParamsOrder(t);
    assert QueryParams(t) == [p] + [] + [];
    assert Join([p], "&") == p;
    assert BaseUrl(owner, repo) + "?" + p == BaseUrl(owner, repo) + "?title=" + Encoded(title);
  }

  /** Registering a title-only template and generating from it: the title is
      filled, then encoded; the empty body stays empty and is left out. */
  lemma GenerateTitleOnly(owner: string, repo: string, name: string, title: string, ps: Params)
    requires FillText(title, ps) != []
    ensures GenerateUrl(WithTemplate(NewConfig(owner, repo), name, IssueTemplate(title, "", [])), name, ps)
         == Ok(BaseUrl(owner, repo) + "?title=" + Encoded(FillText(title, ps)))
  {
    forall k | 0 <= k < |ps| ensures !Contains("", Pattern(ps[k].0)) {
      NoBraceNotContains("", Pattern(ps[k].0));
    }
    FillUnchanged("", ps);
    var c := WithTemplate(NewConfig(owner, repo), name, IssueTemplate(title, "", []));
    assert Lookup(c, name, ps) == Ok(IssueTemplate(FillText(title, ps), "", []));
    OnlyTitle(owner, repo, FillText(title, ps));
  }

  /**
   * The whole path from a registered template to the address: owner `octocat`,
   * repository `Hello-World`, title `Bug: {x}`, no body or labels and `x` set
   * to `A B` give `...?title=Bug%3A+A+B`, with no `body` or `labels` parameter.
   */
  lemma GenerateUrlExample()
    ensures GenerateUrl(WithTemplate(NewConfig("octocat", "Hello-World"), "bug",
                                     IssueTemplate("Bug: {x}", "", [])), "bug", [("x", "A B")])
         == Ok("https://github.com/octocat/Hello-World/issues/new?title=Bug%3A+A+B")
  {
    BugTitleFilled();
    GenerateTitleOnly("octocat", "Hello-World", "bug", "Bug: {x}", [("x", "A B")]);
    BugTitleEncoded();
    ExampleAddress();
  }

  lemma ExampleAddress()
    ensures BaseUrl("octocat", "Hello-World") + "?title=" + "Bug%3A+A+B"
         == "https://github.com/octocat/Hello-World/issues/new?title=Bug%3A+A+B"
  {
    ExampleBaseUrl();
  }

  lemma BugTitleFilled()
    ensures FillText("Bug: {x}", [("x", "A B")]) == "Bug: A B"
  {
    assert "Bug: " + Pattern("x") == "Bug: {x}";
    assert [("x", "A B")] + [] == [("x", "A B")];
    assert "Bug: " + "A B" == "Bug: A B";
    FillOne("Bug: ", "x", "A B", []);
  }

  lemma BugTitleEncoded()
    ensures Encoded("Bug: A B") == "Bug%3A+A+B"
  {
    var a, b, d := "Bug" + [':'], [' '] + "A", [' '] + "B";
    ColonAfter("Bug");
    SpaceBefore("A");
    SpaceBefore("B");
    EncodedConcat(a, b);
    EncodedConcat(a + b, d);
    assert a + b + d == "Bug: A B";
    assert ("Bug" + "%3A") + ("+" + "A") + ("+" + "B") == "Bug%3A+A+B";
  }

  /** A colon after unreserved text is the only thing escaped. */
  lemma ColonAfter(h: string)
    requires forall k :: 0 <= k < |h| ==> IsUnreservedChar(h[k])
    ensures Encoded(h + [':']) == h + "%3A"
  {
    AroundOne(h, ':', "");
    EncodeAscii(':');
    assert EncodeByte(':' as int) == "%3A";
    assert h + [':'] + "" == h + [':'];
  }

  /** A space before unreserved text becomes `+`. */
  lemma SpaceBefore(w: string)
    requires forall k :: 0 <= k < |w| ==> IsUnreservedChar(w[k])
    ensures Encoded([' '] + w) == "+" + w
  {
    AroundOne("", ' ', w);
    EncodeAscii(' ');
    assert EncodeByte(' ' as int) == "+";
    assert "" + [' '] + w == [' '] + w;
  }

  lemma ExampleBaseUrl()
    ensures BaseUrl("octocat", "Hello-World") == "https://github.com/octocat/Hello-World/issues/new"
  {
  }

  // ---------------------------------------------------------------------------
  // create_terminal_hyperlink

  /** The OSC 8 opener and the string terminator that close each half of a link. */
  const Osc8 := "\U{1B}]8;;"
  const St := "\U{1B}\\"

  /** `create_terminal_hyperlink`: `url` shown as `text` by an OSC 8 terminal. */
  function CreateTerminalHyperlink(url: string, text: string): (h: string)
    ensures |h| == |url| + |text| + 14
  {
    Osc8 + url + St + text + Osc8 + St
  }

  /** The address and the shown text read back from a hyperlink, when well formed. */
  function ParseHyperlink(h: string): Option<(string, string)> {
    if Osc8 <= h then ParseTarget(h[|Osc8|..]) else None
  }

  /** After the opener: the address runs to the next escape, which must start `St`. */
  function ParseTarget(rest: string): Option<(string, string)> {
    var i := IndexOf(rest, '\U{1B}');
    if St <= rest[i..] then ParseText(rest[..i], rest[i + |St|..]) else None
  }

  /** After the address: the text runs to the next escape, which must start the closer. */
  function ParseText(url: string, tail: string): Option<(string, string)> {
    var j := IndexOf(tail, '\U{1B}');
    if tail[j..] == Osc8 + St then Some((url, tail[..j])) else None
  }

  /** A hyperlink gives back its address and text, which hold no escape character. */
  lemma HyperlinkRoundTrip(url: string, text: string)
    requires '\U{1B}' !in url && '\U{1B}' !in text
    ensures ParseHyperlink(CreateTerminalHyperlink(url, text)) == Some((url, text))
  {
    var tail := text + (Osc8 + St);
    var rest := url + (St + tail);
    assert CreateTerminalHyperlink(url, text) == Osc8 + rest;
    TargetRoundTrip(url, tail);
    TextRoundTrip(url, text);
  }

  lemma TargetRoundTrip(url: string, tail: string)
    requires '\U{1B}' !in url
    ensures ParseTarget(url + (St + tail)) == ParseText(url, tail)
  {
    LinkHalf(url, St, tail);
    assert (St + tail)[|St|..] == tail;
  }

  lemma TextRoundTrip(url: string, text: string)
    requires '\U{1B}' !in text
    ensures ParseText(url, text + (Osc8 + St)) == Some((url, text))
  {
    LinkHalf(text, Osc8 + St, []);
    assert Osc8 + St + [] == Osc8 + St;
  }

  /** The first escape character after an escape-free part starts the next part. */
  lemma LinkHalf(part: string, next: string, more: string)
    requires '\U{1B}' !in part
    requires next != [] && next[0] == '\U{1B}'
    ensures IndexOf(part + (next + more), '\U{1B}') == |part|
    ensures (part + (next + more))[..|part|] == part
    ensures (part + (next + more))[|part|..] == next + more
  {
    assert part + (next + more) == part + [next[0]] + (next[1..] + more);
    IndexOfAfter(part, '\U{1B}', next[1..] + more);
  }

  /** An encoded value holds no escape character, so it cannot break a hyperlink. */
  lemma EncodedHasNoEscape(s: string)
    ensures '\U{1B}' !in Encoded(s)
  {
    var e := Encoded(s);
    EncodeAlphabet(Utf8(s));
    forall k | 0 <= k < |e| ensures e[k] != '\U{1B}' {
      assert IsEncodedChar(e[k]);
    }
  }

  /**
   * The owner and repository go into the address as given, so the address is
   * escape-free exactly as far as they are: with neither holding an escape
   * character, no address built for them holds one.
   */
  lemma AddressNoEscape(owner: string, repo: string, t: IssueTemplate)
    requires '\U{1B}' !in owner && '\U{1B}' !in repo
    ensures '\U{1B}' !in BuildUrl(owner, repo, t)
  {
    var base := BaseUrl(owner, repo);
    assert '\U{1B}' !in base by {
      assert base == "https://github.com/" + owner + "/" + repo + "/issues/new";
    }
    var q := QueryParams(t);
    if q != [] {
      var fs := Fields(t);
      forall k | 0 <= k < |q| ensures '\U{1B}' !in q[k] {
        EncodedHasNoEscape(fs[k].1);
        FieldNames(t, k);
        assert q[k] == fs[k].0 + "=" + Encoded(fs[k].1);
        assert fs[k].0 in {"title", "body", "labels"};
      }
      JoinAvoids(q, "&", '\U{1B}');
    }
  }

  /** An owner and repository with an escape character can put it into the address. */
  lemma OwnerEscapeReachesAddress(repo: string, t: IssueTemplate)
    ensures '\U{1B}' in BuildUrl("\U{1B}", repo, t)
  {
    var base := BaseUrl("\U{1B}", repo);
    assert base[19] == '\U{1B}';
    assert BuildUrl("\U{1B}", repo, t)[19] == '\U{1B}';
  }

  /** What `generate_url` returns is escape-free when owner and repository are. */
  lemma GenerateUrlNoEscape(c: BugReportConfig, name: string, ps: Params)
    requires '\U{1B}' !in c.owner && '\U{1B}' !in c.repo
    ensures GenerateUrl(c, name, ps).Ok? ==> '\U{1B}' !in GenerateUrl(c, name, ps).value
  {
    if Lookup(c, name, ps).Ok? {
      AddressNoEscape(c.owner, c.repo, Lookup(c, name, ps).value);
    }
  }
}
