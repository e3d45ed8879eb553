/**
  `getNextOption` and `parse` of src/command-less.js:77-249 over an immutable argument list.

  Each call of `NextOption` looks at the head token, consumes zero, one or two tokens (or rewrites a
  combined `-abc` token to `-bc`) and reports the `[key, value]` pair `parse` stores. The process exits and
  uncaught `TypeError`s of the original become `ParseError`s, and the case in which `parse` would loop
  forever is reported as `NoProgress`.
*/
module Scanner {
  import opened Results
  import opened Text
  import opened TokenPattern
  import opened Options

  datatype ParseError =
    | MalformedToken(token: string)   // "Don't recognize token format", exit(1) at :128
    | UnknownOption(name: string)     // "Unknown option", exit(1) at :198
    | UndefinedEntry(key: string)     // TypeError: `this.parsing[key]` is undefined and gets indexed
    | NoProgress(token: string)       // a step that consumes nothing, so the `while` at :234 never ends

  /** The lookup objects `this.longs`, `this.shorts` and `this.parsing`. */
  datatype Tables = Tables(longs: map<string, string>, shorts: map<string, string>, parsing: map<string, OptionSpec>)

  function Build(t: Table): Tables
  {
    Tables(Longs(t), Shorts(t), Entries(t))
  }

  /** `m[k]` used as a property key: a missing entry is `undefined`, which converts to the key "undefined". */
  function Prop(m: map<string, string>, k: string): string
  {
    if k in m then m[k] else "undefined"
  }

  /** `args[i]` as a value. */
  function ArgAt(args: seq<string>, i: nat): Value
  {
    if i < |args| then Str(args[i]) else Undefined
  }

  /** `args[i]` converted to a string, as `RegExp.prototype.test` sees it. */
  function ArgText(args: seq<string>, i: nat): string
  {
    if i < |args| then args[i] else "undefined"
  }

  /** What `args.splice(0, count)` leaves in `args`. */
  function Splice(args: seq<string>, count: nat): seq<string>
  {
    if count <= |args| then args[count..] else []
  }

  /**
    `/^true|false$/i.test(s)`. The alternation binds loosest, so this asks whether `s` starts with "true"
    or ends with "false", not whether it is one of the two words.
  */
  predicate IsBoolWord(s: string)
  {
    StartsWithFolded(s, "true") || EndsWithFolded(s, "false")
  }

  /** `k` is a long name the lookup objects were built from. */
  predicate Declares(T: Tables, k: string)
  {
    k in T.longs || k in T.shorts.Values
  }

  /**
    The alternation binds loosest: any word that starts with "true" or ends with "false", in any case, passes
    the test, whatever else it holds.
  */
  lemma {:induction false} BoolWordShape(w: string)
    ensures IsBoolWord("true" + w) && IsBoolWord("TRUE" + w)
    ensures IsBoolWord(w + "false") && IsBoolWord(w + "FALSE")
  {
    BoolWordFolds();
    FoldedPrefix("true", w, "true");
    FoldedPrefix("TRUE", w, "true");
    FoldedSuffix(w, "false", "false");
    FoldedSuffix(w, "FALSE", "false");
  }

  lemma BoolWordFolds()
    ensures FoldsTo("true", "true") && FoldsTo("TRUE", "true") && FoldsTo("True", "true")
    ensures FoldsTo("false", "false") && FoldsTo("FALSE", "false")
  {
  }

  /** Words the test accepts beyond the two it is meant for. */
  lemma BoolWordExamples()
    ensures IsBoolWord("TRUEish") && IsBoolWord("notfalse") && IsBoolWord("True") && IsBoolWord("FALSE")
  {
    BoolWordShape("ish");
    assert "TRUE" + "ish" == "TRUEish";
    BoolWordShape("not");
    assert "not" + "false" == "notfalse";
    BoolWordShape("");
    assert "" + "FALSE" == "FALSE";
    BoolWordFolds();
    FoldedPrefix("True", "", "true");
    assert "True" + "" == "True";
  }

  /** Words the test rejects: "true" later than the start, "false" earlier than the end. */
  lemma BoolWordRejected()
    ensures !IsBoolWord("xtrue") && !IsBoolWord("falsey") && !IsBoolWord("yes") && !IsBoolWord("")
  {
    assert Lower("xtrue"[0]) != "true"[0] && Lower("xtrue"[0]) != "false"[0];
    assert Lower("falsey"[1]) != "true"[1] && Lower("falsey"[5]) != "false"[4];
  }

  /** A missing next token is tested as the text "undefined", which is not a boolean word. */
  lemma UndefinedNotBoolWord()
    ensures !IsBoolWord(ArgText([], 0))
  {
    var u := "undefined";
    assert Lower(u[0]) != "true"[0];
    assert Lower(u[|u| - 5 + 1]) != "false"[1];
  }

  /** One of the lookup objects has an entry for `op` (the test at :197). */
  predicate Known(T: Tables, op: string)
  {
    op in T.shorts || op in T.longs
  }

  /** The key `getNextOption` reports for an accepted `op` (:202-204). */
  function KeyFor(T: Tables, op: string): string
  {
    if op in T.shorts then T.shorts[op] else op
  }

  datatype Step = Yield(key: string, val: Value, rest: seq<string>) | Abort(error: ParseError)

  /** The argument list got shorter, or kept its length and its head token got shorter. */
  predicate Progress(rest: seq<string>, args: seq<string>)
  {
    |rest| < |args| || (|rest| == |args| > 0 && |rest[0]| < |args[0]|)
  }

  /** Lines 191-206, once the tokens of this step have been spliced off. */
  function Settle(T: Tables, op: string, val: Value, rest: seq<string>): Step
  {
    if !Known(T, op) then Abort(UnknownOption(op)) else Yield(KeyFor(T, op), val, rest)
  }

  /**
    Lines 132-147: the value of a short option written without `=`. `args` is the list after any
    rewrite of a combined token, and `count` the tokens already counted as consumed.
  */
  function ShortValue(T: Tables, op: string, args: seq<string>, count: nat): (r: Step)
    ensures r.Abort? ==> r.error == UndefinedEntry(Prop(T.shorts, op)) || r.error == UnknownOption(op)
    ensures r.Yield? ==> Known(T, op) && r.key == KeyFor(T, op) && Prop(T.shorts, op) in T.parsing
    ensures r.Yield? ==>
      (r.val == ArgAt(args, 1) <==>
        T.parsing[Prop(T.shorts, op)].kind != "boolean" || IsBoolWord(ArgText(args, 1)))
    ensures r.Yield? && r.val == ArgAt(args, 1) ==> r.rest == Splice(args, count + 1)
    ensures r.Yield? && r.val != ArgAt(args, 1) ==>
      r.val == Bool(!Truthy(T.parsing[Prop(T.shorts, op)].default)) && r.rest == Splice(args, count)
  {
    var name := Prop(T.shorts, op);
    if name !in T.parsing then Abort(UndefinedEntry(name))
    else if T.parsing[name].kind != "boolean" then
      Settle(T, op, ArgAt(args, 1), Splice(args, count + 1))
    else if IsBoolWord(ArgText(args, 1)) then
      Settle(T, op, ArgAt(args, 1), Splice(args, count + 1))
    else
      Settle(T, op, Bool(!Truthy(T.parsing[name].default)), Splice(args, count))
  }

  /**
    Lines 171-188: the value of a long option written without `=`. The type is read through
    `shorts[longs[op]]`, the default through `longs[op]`, the short name.
  */
  function LongValue(T: Tables, op: string, args: seq<string>): (r: Step)
    ensures r.Abort? ==>
      r.error == UndefinedEntry(Prop(T.shorts, Prop(T.longs, op))) || r.error == UndefinedEntry(Prop(T.longs, op))
      || r.error == UnknownOption(op)
    ensures r.Yield? ==> Known(T, op) && r.key == KeyFor(T, op) && Prop(T.shorts, Prop(T.longs, op)) in T.parsing
    ensures r.Yield? ==>
      (r.val == ArgAt(args, 1) <==>
        T.parsing[Prop(T.shorts, Prop(T.longs, op))].kind != "boolean" || IsBoolWord(ArgText(args, 1)))
    ensures r.Yield? && r.val == ArgAt(args, 1) ==> r.rest == Splice(args, 2)
    ensures r.Yield? && r.val != ArgAt(args, 1) ==>
      Prop(T.longs, op) in T.parsing && r.val == Bool(!Truthy(T.parsing[Prop(T.longs, op)].default))
      && r.rest == Splice(args, 1)
  {
    var kindKey := Prop(T.shorts, Prop(T.longs, op));
    if kindKey !in T.parsing then Abort(UndefinedEntry(kindKey))
    else if T.parsing[kindKey].kind != "boolean" then
      Settle(T, op, ArgAt(args, 1), Splice(args, 2))
    else if IsBoolWord(ArgText(args, 1)) then
      Settle(T, op, ArgAt(args, 1), Splice(args, 2))
    else
      var defaultKey := Prop(T.longs, op);
      if defaultKey !in T.parsing then Abort(UndefinedEntry(defaultKey))
      else Settle(T, op, Bool(!Truthy(T.parsing[defaultKey].default)), Splice(args, 1))
  }

  /** `getNextOption` (src/command-less.js:77-207) on a non-empty argument list. */
  function NextOption(T: Tables, args: seq<string>): (r: Step)
    requires |args| > 0
    ensures r.Yield? ==> Declares(T, r.key)
    ensures r.Yield? ==> Progress(r.rest, args) || r.rest == args
    ensures r.Yield? && r.rest == args ==> !ShortMatch(args[0]) && !LongMatch(args[0]) && r.val == Undefined
    ensures r.Abort? && r.error.UnknownOption? ==> !Known(T, r.error.name)
    ensures !(r.Abort? && r.error.MalformedToken?)
  {
    var tok := args[0];
    if ShortMatch(tok) then
      ShortShape(tok);
      if '=' in tok then
        var parts := Split(tok, '=');
        Settle(T, CharAt(parts[0], 1), Str(parts[1]), Splice(args, 1))
      else if |tok| > 2 then
        ShortValue(T, CharAt(tok, 1), ["-" + tok[2..]] + args[1..], 0)
      else if |tok| == 2 then
        ShortValue(T, CharAt(tok, 1), args, 1)
      else
        Abort(MalformedToken(tok))
    else if LongMatch(tok) then
      if '=' in tok then
        var parts := Split(tok, '=');
        Settle(T, Slice(parts[0], 2), Str(parts[1]), Splice(args, 1))
      else
        LongValue(T, Slice(tok, 2), args)
    else
      Settle(T, tok, Undefined, args)
  }

  function HeadLength(args: seq<string>): nat
  {
    if |args| == 0 then 0 else |args[0]|
  }

  /**
    The `while` loop of `parse` (:234-240): the `[key, value]` pairs in the order they are stored.
    Every key is one the lookup objects know.
  */
  function Scan(T: Tables, args: seq<string>): (r: Result<seq<(string, Value)>, ParseError>)
    ensures r.Ok? ==> forall i :: 0 <= i < |r.value| ==> Declares(T, r.value[i].0)
    decreases |args|, HeadLength(args)
  {
    if |args| == 0 then Ok([])
    else
      match NextOption(T, args)
      case Abort(e) => Err(e)
      case Yield(k, v, rest) =>
        if rest == args then Err(NoProgress(args[0]))
        else
          match Scan(T, rest)
          case Ok(pairs) => Ok([(k, v)] + pairs)
          case Err(e) => Err(e)
  }

  /** `opts[key] = val` for each pair in turn. */
  function Store(opts: map<string, Value>, pairs: seq<(string, Value)>): (r: map<string, Value>)
    ensures r.Keys == opts.Keys + set i | 0 <= i < |pairs| :: pairs[i].0
    decreases |pairs|
  {
    if |pairs| == 0 then opts else Store(opts[pairs[0].0 := pairs[0].1], pairs[1..])
  }

  /** The value of the last pair for `k`, if any. */
  function LastFor(pairs: seq<(string, Value)>, k: string): Option<Value>
  {
    if |pairs| == 0 then None
    else
      match LastFor(pairs[1..], k)
      case Some(v) => Some(v)
      case None => if pairs[0].0 == k then Some(pairs[0].1) else None
  }

  /** The value an option ends up with: its last stored value, or its default if that is `undefined` or absent. */
  function Resolved(last: Option<Value>, default: Value): Value
  {
    if last.None? || last.value == Undefined then default else last.value
  }

  /** `parse` (src/command-less.js:209-249): scan, store, then fill every `undefined` entry from its default. */
  function Parse(t: Table, args: seq<string>): (r: Result<map<string, Value>, ParseError>)
    requires DistinctLongs(t)
    ensures r.Ok? <==> Scan(Build(t), args).Ok?
    ensures r.Err? ==> r.error == Scan(Build(t), args).error
    ensures r.Ok? ==> r.value.Keys == Names(t)
    ensures r.Ok? ==> forall i :: 0 <= i < |t| ==>
      r.value[t[i].long] == Resolved(LastFor(Scan(Build(t), args).value, t[i].long), t[i].default)
  {
    match Scan(Build(t), args)
    case Err(e) => Err(e)
    case Ok(pairs) =>
      var unset := map k | k in Names(t) :: Undefined;
      var opts := Store(unset, pairs);
      var entries := Entries(t);
      DeclaredKeys(t, pairs);
      StoreLast(unset, pairs);
      EntriesOfTable(t);
      Ok(map k | k in Names(t) :: if opts[k] == Undefined then entries[k].default else opts[k])
  }

  /** The keys a scan over the built tables reports are declared long names. */
  lemma {:induction false} DeclaredKeys(t: Table, pairs: seq<(string, Value)>)
    requires forall i :: 0 <= i < |pairs| ==> Declares(Build(t), pairs[i].0)
    ensures forall i :: 0 <= i < |pairs| ==> pairs[i].0 in Names(t)
  {
    forall i | 0 <= i < |pairs| ensures pairs[i].0 in Names(t) {
      var k := pairs[i].0;
      if k !in Longs(t) {
        var s :| s in Shorts(t) && Shorts(t)[s] == k;
        ShortsValuesDeclared(t, s);
      } else {
        LongsKeys(t);
      }
    }
  }

  /** Storing pairs whose keys are already present keeps the key set and leaves each key at its last value. */
  lemma {:induction false} StoreLast(opts: map<string, Value>, pairs: seq<(string, Value)>)
    requires forall i :: 0 <= i < |pairs| ==> pairs[i].0 in opts
    ensures Store(opts, pairs).Keys == opts.Keys
    ensures forall k :: k in opts ==>
      Store(opts, pairs)[k] == (if LastFor(pairs, k).Some? then LastFor(pairs, k).value else opts[k])
    decreases |pairs|
  {
    if |pairs| > 0 {
      var opts' := opts[pairs[0].0 := pairs[0].1];
      forall i | 0 <= i < |pairs[1..]| ensures pairs[1..][i].0 in opts' {
        assert pairs[1..][i] == pairs[i + 1];
      }
      StoreLast(opts', pairs[1..]);
    }
  }
}
