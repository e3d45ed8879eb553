/** `getNextOption` and `parse` on the option table lil-repl declares (src/index.js:26-36). */
module ParseExamples {
  import opened Results
  import opened Options
  import opened Scanner
  import opened TokenPattern
  import opened ParseProperties

  /** The options lil-repl declares (src/index.js:27-35). */
  const LilRepl: Table := [
    OptionSpec("compressHistory", "c", "Remove repeat commands from history", "boolean", Bool(true)),
    OptionSpec("debug", "d", "Enable debug mode without using environment var", "boolean", Bool(false)),
    OptionSpec("fullErrors", "e", "Show full error messages.", "boolean", Bool(false)),
    OptionSpec("help", "h", "Show this help message", "boolean", Bool(false)),
    OptionSpec("historyFile", "f", "Command history file", "path", Str(".history")),
    OptionSpec("historyLimit", "l", "Command history limit", "int", Num(1000)),
    OptionSpec("saveAllCommands", "s", "Save all commands in history", "boolean", Bool(false)),
    OptionSpec("uniqueCommands", "u", "Only save unique commands in history", "boolean", Bool(false)),
    OptionSpec("version", "v", "Show version number", "boolean", Bool(false))
  ]

  lemma LilReplLongsDiffer()
    ensures forall i, j :: 0 <= i < j < |LilRepl| ==>
      |LilRepl[i].long| != |LilRepl[j].long| || LilRepl[i].long[0] != LilRepl[j].long[0]
  {
  }

  lemma LilReplShortsDiffer()
    ensures forall i, j :: 0 <= i < j < |LilRepl| ==> LilRepl[i].short[0] != LilRepl[j].short[0]
  {
  }

  lemma LilReplLengths()
    ensures forall i :: 0 <= i < |LilRepl| ==> |LilRepl[i].short| == 1 && |LilRepl[i].long| > 1
  {
  }

  lemma LilReplLongsPlain()
    ensures forall i :: 0 <= i < |LilRepl| ==> LilRepl[i].long[0] != '-'
  {
  }

  /** No two lil-repl options share a name of either kind. */
  lemma LilReplClean()
    ensures Clean(LilRepl)
  {
    LilReplLongsDiffer();
    LilReplShortsDiffer();
    LilReplLengths();
    forall i, j | 0 <= i < j < |LilRepl| ensures LilRepl[i].short != LilRepl[j].short {
      assert LilRepl[i].short[0] != LilRepl[j].short[0];
    }
    forall i, j | 0 <= i < j < |LilRepl| ensures LilRepl[i].long != LilRepl[j].long {
      assert |LilRepl[i].long| != |LilRepl[j].long| || LilRepl[i].long[0] != LilRepl[j].long[0];
    }
  }

  /** `-h` alone turns `help` on (its default is `false`) and consumes the token. */
  lemma ShortHelp()
    ensures NextOption(Build(LilRepl), ["-h"]) == Yield("help", Bool(true), [])
  {
    LilReplClean();
    var help := LilRepl[3];
    assert help.short == ['h'] && help.kind == "boolean" && help.long == "help" && !Truthy(help.default);
    UndefinedNotBoolWord();
    ShortAlone(LilRepl, 3, 'h', []);
    assert [['-', 'h']] + [] == ["-h"];
  }

  lemma HelpDeclaration()
    ensures LilRepl[3].short == "h" && LilRepl[3].kind == "boolean" && LilRepl[3].long == "help"
  {
  }

  lemma HelpLongToken()
    ensures LongMatch("--" + LilRepl[3].long) && '=' !in LilRepl[3].long
    ensures "--" + LilRepl[3].long == "--help"
  {
    LongExamples();
    assert "--" + LilRepl[3].long == "--help";
  }

  lemma HelpLongStep()
    ensures NextOption(Build(LilRepl), ["--" + LilRepl[3].long] + []) == Abort(UndefinedEntry(LilRepl[3].short))
  {
    HelpDeclaration();
    HelpLongToken();
    LilReplClean();
    UndefinedNotBoolWord();
    LongAlone(LilRepl, 3, []);
  }

  /** `--help` alone reads `this.parsing['h']`, which does not exist: the program dies with a TypeError. */
  lemma LongHelpFails()
    ensures NextOption(Build(LilRepl), ["--help"]) == Abort(UndefinedEntry("h"))
  {
    HelpLongStep();
    HelpDeclaration();
    HelpLongToken();
    assert ["--" + LilRepl[3].long] + [] == ["--help"];
  }

  /** `-d false` stores the STRING "false", which is truthy, so debugging is switched on. */
  lemma DebugFalseIsAString()
    ensures NextOption(Build(LilRepl), ["-d", "false"]) == Yield("debug", Str("false"), [])
    ensures Truthy(Str("false"))
  {
    LilReplClean();
    var debug := LilRepl[1];
    assert debug.short == ['d'] && debug.kind == "boolean" && debug.long == "debug";
    assert IsBoolWord("false");
    ShortAlone(LilRepl, 1, 'd', ["false"]);
    assert [['-', 'd']] + ["false"] == ["-d", "false"];
  }

  /** A one-character `=` value is not a recognised token, so `-l=5` is an unknown option. */
  lemma LimitWithEqualsUnknown()
    ensures NextOption(Build(LilRepl), ["-l=5"]) == Abort(UnknownOption("-l=5"))
  {
    var T := Build(LilRepl);
    LilReplLengths();
    LilReplLongsPlain();
    ShortsOfTable(LilRepl, "-l=5");
    LongsKeys(LilRepl);
    assert "-l=5" !in Names(LilRepl);
    assert !Known(T, "-l=5");
    OneCharValueUnknown(T, 'l', '5', []);
    assert [['-', 'l', '=', '5']] + [] == ["-l=5"];
  }

  /** A bare word equal to a declared long name consumes nothing: `parse` would never return. */
  lemma BareNameNeverEnds()
    ensures Scan(Build(LilRepl), ["debug"]) == Err(NoProgress("debug"))
  {
    LongsKeys(LilRepl);
    assert "debug" in Longs(LilRepl) by {
      assert LilRepl[1].long == "debug";
    }
    assert !LongMatch("debug") by {
      assert "debug"[..2][0] == 'd';
    }
    assert !ShortMatch("debug");
    DeclaredWordNeverEnds(Build(LilRepl), "debug", []);
    assert ["debug"] + [] == ["debug"];
  }

  /** The three boolean flags of `-dsu` and two of the options it leaves alone. */
  lemma DsuDeclarations()
    ensures LilRepl[1].short == ['d'] && LilRepl[6].short == ['s'] && LilRepl[7].short == ['u']
    ensures LilRepl[1].kind == "boolean" && LilRepl[6].kind == "boolean" && LilRepl[7].kind == "boolean"
    ensures LilRepl[1].long == "debug" && LilRepl[6].long == "saveAllCommands" && LilRepl[7].long == "uniqueCommands"
    ensures LilRepl[1].default == Bool(false) && LilRepl[6].default == Bool(false) && LilRepl[7].default == Bool(false)
    ensures LilRepl[5].long == "historyLimit" && LilRepl[5].default == Num(1000)
    ensures LilRepl[0].long == "compressHistory" && LilRepl[0].default == Bool(true)
  {
  }

  /**
    `-dsu` switches on debug, saveAllCommands and uniqueCommands (all three default to `false`) and leaves
    historyLimit at 1000 and compressHistory at `true`; the names are those `DsuDeclarations` gives.
  */
  lemma CombinedLilReplFlags()
    ensures var opts := Parse(LilRepl, [['-', 'd', 's', 'u']]);
      && opts.Ok?
      && opts.value[LilRepl[1].long] == Bool(true)
      && opts.value[LilRepl[6].long] == Bool(true)
      && opts.value[LilRepl[7].long] == Bool(true)
      && opts.value[LilRepl[5].long] == LilRepl[5].default
      && opts.value[LilRepl[0].long] == LilRepl[0].default
  {
    LilReplClean();
    DsuDeclarations();
    CombinedBooleans(LilRepl, 1, 6, 7, 'd', 's', 'u');
  }
}
