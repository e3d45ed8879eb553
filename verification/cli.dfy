/**
  What `parse` hands back (src/command-less.js:209-249): the help text, rendered in the requested style
  before any argument is read, and the resolved options.
*/
module Cli {
  import opened Results
  import opened Options
  import opened Scanner
  import opened Help

  /** Why `parse` produced nothing: rendering the man page threw, or scanning the arguments failed. */
  datatype CliError = RenderFailed(render: RenderError) | ScanFailed(scan: ParseError)

  /** The parser object after `parse`: its `help` property and the returned options. */
  datatype Parsed = Parsed(help: string, options: map<string, Value>)

  /** The help text of the chosen style: the man page for `"man"`, the help page for anything else. */
  function Render(p: Package, style: string, t: Table): Result<string, RenderError>
    requires style == "man" ==> PlainKinds(t)
  {
    if style == "man" then ManPage(p, t) else Ok(HelpPage(p.name, t))
  }

  /**
    `parse` with the help text it stores on the side. The text is rendered first, so a man-style parser whose
    package has no description fails whatever the arguments are; otherwise the outcome is that of scanning.
  */
  function Run(p: Package, style: string, t: Table, args: seq<string>): (r: Result<Parsed, CliError>)
    requires DistinctLongs(t) && (style == "man" ==> PlainKinds(t))
    ensures style == "man" && p.description.None? ==> r == Err(RenderFailed(DescriptionUndefined))
    ensures style != "man" || p.description.Some? ==>
      && (r.Ok? <==> Parse(t, args).Ok?)
      && (r.Ok? ==> r.value.options == Parse(t, args).value && r.value.options.Keys == Names(t))
      && (r.Err? ==> r.error == ScanFailed(Scan(Build(t), args).error))
    ensures r.Ok? && style != "man" ==> r.value.help == HelpPage(p.name, t)
  {
    match Render(p, style, t)
    case Err(e) => Err(RenderFailed(e))
    case Ok(help) =>
      match Parse(t, args)
      case Err(e) => Err(ScanFailed(e))
      case Ok(options) => Ok(Parsed(help, options))
  }
}
