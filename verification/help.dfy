/**
  The two usage texts `parse` renders from the option table (src/command-less.js:28-75): the tabbed help
  page and the man-style page. `util.format`'s `%s` is string concatenation of the already converted
  fields, and a value is converted the way `%s` converts it.
*/
module Help {
  import opened Results
  import opened Text
  import opened Options

  // ---------------------------------------------------------------------------------------------------------
  // Converting defaults
  // ---------------------------------------------------------------------------------------------------------

  function DigitChar(d: nat): char
    requires d < 10
  {
    "0123456789"[d]
  }

  function DigitValue(c: char): nat
  {
    if '0' <= c <= '9' then (c as int - '0' as int) as nat else 0
  }

  /** The decimal digits of `n`, most significant first, no leading zero. */
  function Decimal(n: nat): (r: string)
    ensures |r| >= 1 && forall i :: 0 <= i < |r| ==> '0' <= r[i] <= '9'
    ensures |r| > 1 ==> r[0] != '0'
  {
    if n < 10 then [DigitChar(n)] else Decimal(n / 10) + [DigitChar(n % 10)]
  }

  /** Reading a digit string back as a number. */
  function DecimalValue(s: string): nat
  {
    if |s| == 0 then 0 else 10 * DecimalValue(s[..|s| - 1]) + DigitValue(s[|s| - 1])
  }

  lemma {:induction false} DecimalRoundTrip(n: nat)
    ensures DecimalValue(Decimal(n)) == n
  {
    if n >= 10 {
      DecimalRoundTrip(n / 10);
      var s := Decimal(n);
      assert s == Decimal(n / 10) + [DigitChar(n % 10)];
      assert s[..|s| - 1] == Decimal(n / 10);
      assert s[|s| - 1] == DigitChar(n % 10);
      DigitChars(n % 10);
    } else {
      DigitChars(n);
      assert Decimal(n)[..0] == [];
    }
  }

  lemma {:induction false} DigitChars(d: nat)
    requires d < 10
    ensures DigitValue(DigitChar(d)) == d
  {
  }

  /** `%s` applied to a value: `undefined`, `null`, `true`/`false`, the decimal number, or the string itself. */
  function Shown(v: Value): (r: string)
    ensures v.Str? ==> r == v.s
    ensures !v.Str? ==> |r| > 0 && (r[0] == '-' <==> v.Num? && v.n < 0)
    ensures v.Num? ==> forall i :: 1 <= i < |r| ==> '0' <= r[i] <= '9'
  {
    match v
    case Undefined => "undefined"
    case Null => "null"
    case Bool(b) => if b then "true" else "false"
    case Num(n) => if n < 0 then "-" + Decimal(-n) else Decimal(n)
    case Str(s) => s
  }

  /** Reading an optionally signed digit string back as a number. */
  function SignedValue(s: string): int
  {
    if |s| > 0 && s[0] == '-' then -(DecimalValue(s[1..]) as int) else DecimalValue(s)
  }

  /** A number's text reads back as that number, and is a minus sign only for negative numbers. */
  lemma {:induction false} ShownNumber(n: int)
    ensures SignedValue(Shown(Num(n))) == n
    ensures |Shown(Num(n))| > 0 && (Shown(Num(n))[0] == '-' <==> n < 0)
  {
    var m := if n < 0 then -n else n;
    DecimalRoundTrip(m);
    if n < 0 {
      assert Shown(Num(n))[1..] == Decimal(m);
    }
  }

  // ---------------------------------------------------------------------------------------------------------
  // Help page
  // ---------------------------------------------------------------------------------------------------------

  /**
    The four header lines of the help page: the format string `"  Usage %s [options]\n\n\tFlags\n\tName..."`
    of src/command-less.js:29 cut at its newlines.
  */
  function HelpHeaderLines(program: string): seq<string>
  {
    ["  Usage " + program + " [options]", "", "\tFlags", "\tName\t\t  Type\t\t\tDescription"]
  }

  /** The names column of a help row: `short | long`. */
  function RowNames(o: OptionSpec): string
  {
    o.short + " | " + o.long
  }

  /** The type column: a padding tab when the long name is shorter than 12, the bracketed type, a padding tab when the type is shorter than 5. */
  function RowKind(o: OptionSpec): string
  {
    (if |o.long| < 12 then "\t" else "") + "[" + o.kind + "]" + (if |o.kind| < 5 then "\t" else "")
  }

  /** The description column: the description and the shown default. */
  function RowText(o: OptionSpec): string
  {
    o.description + " (default is " + Shown(o.default) + ")"
  }

  /**
    One option's help row, without its newline (src/command-less.js:32-43): the names, a tab, the type
    column, a tab, then the description and the default.
  */
  function HelpLine(o: OptionSpec): (r: string)
    ensures IsPrefix(RowNames(o) + "\t", r)
    ensures IsSuffix("\t" + RowText(o), r)
  {
    Ends(RowNames(o) + "\t", RowKind(o), "\t" + RowText(o));
    (RowNames(o) + "\t") + RowKind(o) + ("\t" + RowText(o))
  }

  /** The help lines of the table, one per option, in declaration order. */
  function HelpLines(t: Table): (r: seq<string>)
    ensures |r| == |t| && forall i :: 0 <= i < |t| ==> r[i] == HelpLine(t[i])
  {
    if |t| == 0 then [] else [HelpLine(t[0])] + HelpLines(t[1..])
  }

  /**
    `helpPage` (src/command-less.js:28-49): the header, then one row per option, every line ending in a
    newline.
  */
  function HelpPage(program: string, t: Table): (r: string)
    ensures IsPrefix("  Usage " + program + " [options]\n", r)
    ensures r[|r| - 1] == '\n'
  {
    TerminatedShape(HelpHeaderLines(program) + HelpLines(t), '\n');
    Terminated(HelpHeaderLines(program) + HelpLines(t), '\n')
  }

  lemma {:induction false} HelpLinesAppend(t: Table, o: OptionSpec)
    ensures HelpLines(t + [o]) == HelpLines(t) + [HelpLine(o)]
  {
    var l, r := HelpLines(t + [o]), HelpLines(t) + [HelpLine(o)];
    assert |l| == |r|;
    forall i | 0 <= i < |l|
      ensures l[i] == r[i]
    {
      if i < |t| {
        assert (t + [o])[i] == t[i];
      } else {
        assert (t + [o])[i] == o;
      }
    }
  }

  lemma {:induction false} HelpPageIsTerminated(program: string, t: Table)
    ensures HelpPage(program, t) == Terminated(HelpHeaderLines(program) + HelpLines(t), '\n')
  {
  }

  /** No field of the option holds a newline, so its row stays on one line. */
  predicate OneLine(o: OptionSpec)
  {
    '\n' !in o.short && '\n' !in o.long && '\n' !in o.kind && '\n' !in o.description && '\n' !in Shown(o.default)
  }

  lemma {:induction false} HelpLineOneLine(o: OptionSpec)
    requires OneLine(o)
    ensures '\n' !in HelpLine(o)
  {
    assert '\n' !in RowNames(o) && '\n' !in RowKind(o) && '\n' !in RowText(o);
  }


  lemma {:induction false} HeaderOneLine(program: string)
    requires '\n' !in program
    ensures |HelpHeaderLines(program)| == 4
    ensures forall i :: 0 <= i < 4 ==> '\n' !in HelpHeaderLines(program)[i]
  {
    assert '\n' !in "  Usage " + program + " [options]";
  }

  /**
    The page read line by line: the four header lines, then exactly one line per option, in declaration
    order, and nothing after the final newline.
  */
  lemma {:induction false} HelpPageLines(program: string, t: Table)
    requires '\n' !in program && forall i :: 0 <= i < |t| ==> OneLine(t[i])
    ensures Split(HelpPage(program, t), '\n') == HelpHeaderLines(program) + HelpLines(t) + [""]
  {
    var head, rows := HelpHeaderLines(program), HelpLines(t);
    HeaderOneLine(program);
    forall i | 0 <= i < |rows|
      ensures '\n' !in rows[i]
    {
      HelpLineOneLine(t[i]);
    }
    assert NoSeparator(head, '\n') && NoSeparator(rows, '\n');
    SplitTerminatedBlocks(head, rows, '\n');
  }

  /** Declaring one more option appends exactly its row, and leaves the text before it alone. */
  lemma {:induction false} HelpPageAppend(program: string, t: Table, o: OptionSpec)
    ensures HelpPage(program, t + [o]) == HelpPage(program, t) + HelpLine(o) + "\n"
  {
    var head, row := HelpHeaderLines(program), HelpLine(o);
    HelpLinesAppend(t, o);
    assert head + HelpLines(t + [o]) == (head + HelpLines(t)) + [row];
    HelpPageIsTerminated(program, t + [o]);
    HelpPageIsTerminated(program, t);
    TerminatedConcat(head + HelpLines(t), [row], '\n');
    TerminatedOne(row, '\n');
  }

  /** No field of the option holds a tab. */
  predicate TabFree(o: OptionSpec)
  {
    '\t' !in o.short && '\t' !in o.long && '\t' !in o.kind && '\t' !in o.description && '\t' !in Shown(o.default)
  }

  /** The tabs in an optional padding tab: one when the condition holds, else none. */
  lemma {:induction false} PadTabs(extra: bool)
    ensures Count(if extra then "\t" else "", '\t') == if extra then 1 else 0
    ensures Count("\t", '\t') == 1
  {
    assert Count("", '\t') == 0;
    assert "\t"[1..] == "";
  }

  /**
    The column padding: a row carries two tabs, one more when the long name is shorter than 12 characters
    and one more when the type is shorter than 5.
  */
  lemma {:induction false} HelpLineTabs(o: OptionSpec)
    requires TabFree(o)
    ensures Count(HelpLine(o), '\t') == 2 + (if |o.long| < 12 then 1 else 0) + (if |o.kind| < 5 then 1 else 0)
  {
    var names, kind, text := RowNames(o), RowKind(o), RowText(o);
    assert '\t' !in names && '\t' !in text;
    RowKindTabs(o);
    PadTabs(false);
    CountConcat(names, "\t", '\t');
    CountConcat("\t", text, '\t');
    CountConcat(names + "\t", kind, '\t');
    CountConcat((names + "\t") + kind, "\t" + text, '\t');
  }

  /** The type column holds just its padding tabs. */
  lemma {:induction false} RowKindTabs(o: OptionSpec)
    requires '\t' !in o.kind
    ensures Count(RowKind(o), '\t') == (if |o.long| < 12 then 1 else 0) + (if |o.kind| < 5 then 1 else 0)
  {
    var pad1 := if |o.long| < 12 then "\t" else "";
    var pad2 := if |o.kind| < 5 then "\t" else "";
    PadTabs(|o.long| < 12);
    PadTabs(|o.kind| < 5);
    assert Count("[", '\t') == 0 && Count("]", '\t') == 0;
    CountConcat(pad1, "[", '\t');
    CountConcat(pad1 + "[", o.kind, '\t');
    CountConcat(pad1 + "[" + o.kind, "]", '\t');
    CountConcat(pad1 + "[" + o.kind + "]", pad2, '\t');
  }




  // ---------------------------------------------------------------------------------------------------------
  // Man page
  // ---------------------------------------------------------------------------------------------------------

  /** The package fields the man page reads: the name (already defaulted), the description and the author. */
  datatype Package = Package(name: string, description: Option<string>, author: Option<string>)

  /** `description.indexOf('.')` on an undefined description throws before any text is produced. */
  datatype RenderError = DescriptionUndefined

  /** The NAME line's summary (src/command-less.js:52, 56): the description through its first `.`. */
  function ShortDescription(d: string): (r: string)
    ensures IsPrefix(r, d)
    ensures '.' in d ==> |r| > 0 && r[|r| - 1] == '.' && '.' !in r[..|r| - 1]
    ensures '.' !in d ==> r == d
  {
    var stop := IndexOf(d, '.');
    var r := d[..if stop != -1 then stop + 1 else |d|];
    assert stop != -1 ==> r[..|r| - 1] == d[..stop];
    r
  }

  /** One option's man row (src/command-less.js:61-70), without the newline and tab that follow it. */
  function ManLine(o: OptionSpec): string
  {
    var names := o.short + " | " + o.long;
    names + ("\t" + (if |o.long| < 12 then "\t" else "")) + o.kind + ("\t" + " - " + o.description)
  }

  /** Each row becomes a line indented by the tab that ends the line before it. */
  function ManLines(t: Table): (r: seq<string>)
    ensures |r| == |t| && forall i :: 0 <= i < |t| ==> r[i] == "\t" + ManLine(t[i])
  {
    if |t| == 0 then [] else ["\t" + ManLine(t[0])] + ManLines(t[1..])
  }

  function AuthorText(author: Option<string>): string
  {
    match author
    case None => "N/A"
    case Some(a) => a
  }

  /**
    The lines of the format string at src/command-less.js:54 with the name, the short description and the
    description filled in: a title, NAME, SYNOPSIS, DESCRIPTION and the OPTIONS heading.
  */
  function ManHeadLines(name: string, d: string): seq<string>
  {
    ["\t\t\t\t\t\"Man Page\"", "", "NAME", "\t" + name + " - " + ShortDescription(d), "", "SYNOPSIS",
     "\t" + name + " [options]", "", "DESCRIPTION", "\t" + d, "", "OPTIONS"]
  }

  /**
    The lines from the tab after the last row on (src/command-less.js:72): an empty indented line, then the
    AUTHOR section naming the author, or `N/A` when the package names none.
  */
  function ManTailLines(author: Option<string>): seq<string>
  {
    ["\t", "", "AUTHOR", "\t" + AuthorText(author), ""]
  }

  /** A `%` in a type tag would be read by `util.format` as part of the format string. */
  predicate PlainKinds(t: Table)
  {
    forall i :: 0 <= i < |t| ==> '%' !in t[i].kind
  }

  /**
    `manPage` (src/command-less.js:51-75): the head, one row per option, and the AUTHOR section, every line
    ending in a newline. The description is read before the `typeof` guard on it, so an undefined description
    fails.
  */
  function ManPage(p: Package, t: Table): (r: Result<string, RenderError>)
    requires PlainKinds(t)
    ensures r.Err? <==> p.description.None?
  {
    match p.description
    case None => Err(DescriptionUndefined)
    case Some(d) => Ok(Terminated(ManPageLines(p.name, d, t, p.author), '\n'))
  }

  function ManPageLines(name: string, d: string, t: Table, author: Option<string>): seq<string>
  {
    ManHeadLines(name, d) + ManLines(t) + ManTailLines(author)
  }

  /**
    The man page's lines: the title, NAME with the short description, SYNOPSIS, DESCRIPTION, OPTIONS, exactly
    one tab-indented line per option in declaration order, then the AUTHOR section, whose author line reads
    `N/A` when there is no author.
  */
  lemma {:induction false} ManPageLayout(name: string, d: string, t: Table, author: Option<string>)
    ensures var lines := ManPageLines(name, d, t, author);
      && |lines| == 17 + |t|
      && lines[2] == "NAME"
      && lines[3] == "\t" + name + " - " + ShortDescription(d)
      && (forall i :: 0 <= i < |t| ==> lines[12 + i] == "\t" + ManLine(t[i]))
      && lines[14 + |t|] == "AUTHOR"
      && lines[15 + |t|] == (if author.None? then "\tN/A" else "\t" + author.value)
  {
    var head, rows, tail := ManHeadLines(name, d), ManLines(t), ManTailLines(author);
    var lines := head + rows + tail;
    ManHeadFacts(name, d);
    ManTailFacts(author);
    assert lines == ManPageLines(name, d, t, author);
    assert lines[2] == head[2] && lines[3] == head[3];
    assert lines[14 + |t|] == tail[2] && lines[15 + |t|] == tail[3];
    forall i | 0 <= i < |t|
      ensures lines[12 + i] == "\t" + ManLine(t[i])
    {
      assert lines[12 + i] == rows[i];
    }
  }

  lemma {:induction false} ManHeadFacts(name: string, d: string)
    ensures |ManHeadLines(name, d)| == 12
    ensures ManHeadLines(name, d)[2] == "NAME"
    ensures ManHeadLines(name, d)[3] == "\t" + name + " - " + ShortDescription(d)
  {
  }

  lemma {:induction false} ManTailFacts(author: Option<string>)
    ensures |ManTailLines(author)| == 5
    ensures ManTailLines(author)[2] == "AUTHOR"
    ensures ManTailLines(author)[3] == (if author.None? then "\tN/A" else "\t" + author.value)
  {
  }

  /** Split at newlines, the man page is exactly its lines and nothing after the last newline. */
  lemma {:induction false} ManPageBlocks(p: Package, t: Table)
    requires PlainKinds(t) && p.description.Some?
    requires '\n' !in p.name && '\n' !in p.description.value && '\n' !in AuthorText(p.author)
    requires forall i :: 0 <= i < |t| ==> OneLine(t[i])
    ensures Split(ManPage(p, t).value, '\n') == ManPageLines(p.name, p.description.value, t, p.author) + [""]
  {
    var d := p.description.value;
    var head, rows, tail := ManHeadLines(p.name, d), ManLines(t), ManTailLines(p.author);
    ManHeadOneLine(p.name, d);
    ManLinesOneLine(t);
    ManTailOneLine(p.author);
    NoSeparatorConcat(head, rows, '\n');
    SplitTerminatedBlocks(head + rows, tail, '\n');
  }

  lemma {:induction false} ManTailOneLine(author: Option<string>)
    requires '\n' !in AuthorText(author)
    ensures NoSeparator(ManTailLines(author), '\n')
  {
    assert '\n' !in "\t" + AuthorText(author);
  }

  lemma {:induction false} ManHeadOneLine(name: string, d: string)
    requires '\n' !in name && '\n' !in d
    ensures NoSeparator(ManHeadLines(name, d), '\n')
  {
    var s := ShortDescription(d);
    assert '\n' !in s by {
      assert forall k :: 0 <= k < |s| ==> s[k] == d[k];
    }
    assert '\n' !in "\t" + name + " - " + s;
    assert '\n' !in "\t" + name + " [options]";
    assert '\n' !in "\t" + d;
  }

  lemma {:induction false} ManLinesOneLine(t: Table)
    requires forall i :: 0 <= i < |t| ==> OneLine(t[i])
    ensures NoSeparator(ManLines(t), '\n')
  {
    forall i | 0 <= i < |t|
      ensures '\n' !in ManLines(t)[i]
    {
      ManLineOneLine(t[i]);
    }
  }

  lemma {:induction false} ManLineOneLine(o: OptionSpec)
    requires OneLine(o)
    ensures '\n' !in "\t" + ManLine(o)
  {
    var names := o.short + " | " + o.long;
    var pad := "\t" + (if |o.long| < 12 then "\t" else "");
    var rest := "\t" + " - " + o.description;
    assert '\n' !in names && '\n' !in pad && '\n' !in rest;
    assert ManLine(o) == names + pad + o.kind + rest;
  }

  /** Declaring one more option inserts its row just before the closing lines and changes nothing else. */
  lemma {:induction false} ManPageAppend(p: Package, t: Table, o: OptionSpec)
    requires PlainKinds(t + [o]) && p.description.Some?
    ensures PlainKinds(t)
    ensures var before, after := ManPage(p, t).value, ManPage(p, t + [o]).value;
      var cut := |before| - |Terminated(ManTailLines(p.author), '\n')|;
      0 <= cut && after == before[..cut] + "\t" + ManLine(o) + "\n" + before[cut..]
  {
    assert forall i :: 0 <= i < |t| ==> t[i] == (t + [o])[i];
    var head := ManHeadLines(p.name, p.description.value);
    var tail := ManTailLines(p.author);
    var row := "\t" + ManLine(o);
    assert ManLines(t + [o]) == ManLines(t) + [row];
    assert head + ManLines(t + [o]) + tail == (head + ManLines(t)) + [row] + tail;
    TerminatedConcat(head + ManLines(t), tail, '\n');
    TerminatedConcat((head + ManLines(t)) + [row], tail, '\n');
    TerminatedConcat(head + ManLines(t), [row], '\n');
    assert [row][1..] == [];
    var before := Terminated(head + ManLines(t), '\n') + Terminated(tail, '\n');
    assert ManPage(p, t).value == before;
    assert before[..|before| - |Terminated(tail, '\n')|] == Terminated(head + ManLines(t), '\n');
    assert before[|before| - |Terminated(tail, '\n')|..] == Terminated(tail, '\n');
  }
}
