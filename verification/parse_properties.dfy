/** What one step of `getNextOption` and a whole `parse` do with each token shape. */
module ParseProperties {
  import opened Results
  import opened Text
  import opened TokenPattern
  import opened Options
  import opened Scanner

  /** The text between the first `=` and the next `=` (or the end): `tok.split('=')[1]`. */
  function EqualsValue(tok: string): string
    requires '=' in tok
  {
    var after := tok[IndexOf(tok, '=') + 1..];
    if '=' in after then after[..IndexOf(after, '=')] else after
  }

  lemma {:induction false} SecondField(tok: string)
    requires '=' in tok
    ensures |Split(tok, '=')| >= 2
    ensures Split(tok, '=')[0] == tok[..IndexOf(tok, '=')]
    ensures Split(tok, '=')[1] == EqualsValue(tok)
  {
    SplitAtFirst(tok, '=');
    SplitHead(tok[IndexOf(tok, '=') + 1..], '=');
  }

  /**
    `-k=value`: the key is the character after `-`, the value the text after the first `=` up to the next
    `=`, and exactly the one token is consumed.
  */
  lemma {:induction false} ShortEqualsForm(T: Tables, tok: string, more: seq<string>)
    requires ShortMatch(tok) && '=' in tok
    ensures var op := [tok[1]];
      NextOption(T, [tok] + more)
        == if Known(T, op) then Yield(KeyFor(T, op), Str(EqualsValue(tok)), more) else Abort(UnknownOption(op))
  {
    ShortShape(tok);
    SecondField(tok);
    var i := IndexOf(tok, '=');
    assert i >= 2 by {
      assert tok[0] != '=' && tok[1] != '=';
    }
    assert ([tok] + more)[1..] == more;
  }

  /**
    `--name=value`: the key is the text between `--` and the first `=`, the value as for the short form,
    and exactly the one token is consumed.
  */
  lemma {:induction false} LongEqualsForm(T: Tables, tok: string, more: seq<string>)
    requires LongMatch(tok) && '=' in tok
    ensures IndexOf(tok, '=') >= 2
    ensures var op := tok[2..IndexOf(tok, '=')];
      NextOption(T, [tok] + more)
        == if Known(T, op) then Yield(KeyFor(T, op), Str(EqualsValue(tok)), more) else Abort(UnknownOption(op))
  {
    SecondField(tok);
    assert tok[0] == '-' && tok[1] == '-' by {
      assert tok[..2] == "--";
    }
    if ShortMatch(tok) {
      ShortShape(tok);
    }
    assert ([tok] + more)[1..] == more;
  }

  /** Declared long names, short names and long-versus-short names never collide. */
  predicate Clean(t: Table)
  {
    && DistinctLongs(t)
    && (forall i, j :: 0 <= i < j < |t| ==> t[i].short != t[j].short)
    && (forall i, j :: 0 <= i < |t| && 0 <= j < |t| ==> t[i].long != t[j].short)
  }

  /** In a clean table each lookup object sends option `i`'s names where one would expect. */
  lemma {:induction false} CleanLookups(t: Table, i: nat)
    requires Clean(t) && i < |t|
    ensures t[i].short in Shorts(t) && Shorts(t)[t[i].short] == t[i].long
    ensures t[i].long in Longs(t) && Longs(t)[t[i].long] == t[i].short
    ensures t[i].long in Entries(t) && Entries(t)[t[i].long] == t[i]
    ensures t[i].short !in Entries(t)
    ensures t[i].long !in Shorts(t)
  {
    LongsOfTable(t);
    EntriesOfTable(t);
    ShortsOfTable(t, t[i].short);
    var j :| IsLastOwner(t, t[i].short, j) && Shorts(t)[t[i].short] == t[j].long;
    assert j == i;
    ShortsOfTable(t, t[i].long);
  }

  /**
    Combined `-cxy` whose first flag `c` is a boolean and no `true`/`false` word follows: the key is `c`'s
    option, the value the negated default, and the head becomes `-xy`, one character shorter, with nothing
    removed.
  */
  lemma {:induction false} CombinedBareBoolean(t: Table, i: nat, tok: string, more: seq<string>)
    requires Clean(t) && i < |t|
    requires ShortMatch(tok) && '=' !in tok && |tok| > 2 && t[i].short == [tok[1]]
    requires t[i].kind == "boolean" && !IsBoolWord(ArgText(more, 0))
    ensures NextOption(Build(t), [tok] + more) == Yield(t[i].long, Bool(!Truthy(t[i].default)), ["-" + tok[2..]] + more)
    ensures |("-" + tok[2..])| == |tok| - 1
  {
    CleanLookups(t, i);
    var args' := ["-" + tok[2..]] + ([tok] + more)[1..];
    assert args' == ["-" + tok[2..]] + more;
    assert ArgText(args', 1) == ArgText(more, 0);
  }

  /**
    Combined `-cxy` whose first flag `c` takes its value from the next token (a non-boolean, or a boolean
    followed by a `true`/`false` word): the value is the next token, but the token removed is the rewritten
    `-xy`, so the value token stays at the head of the list.
  */
  lemma {:induction false} CombinedTakesNextToken(t: Table, i: nat, tok: string, more: seq<string>)
    requires Clean(t) && i < |t|
    requires ShortMatch(tok) && '=' !in tok && |tok| > 2 && t[i].short == [tok[1]]
    requires t[i].kind != "boolean" || IsBoolWord(ArgText(more, 0))
    ensures NextOption(Build(t), [tok] + more) == Yield(t[i].long, ArgAt(more, 0), more)
  {
    CleanLookups(t, i);
    var args' := ["-" + tok[2..]] + ([tok] + more)[1..];
    assert args' == ["-" + tok[2..]] + more;
    assert ArgText(args', 1) == ArgText(more, 0) && ArgAt(args', 1) == ArgAt(more, 0);
    assert Splice(args', 1) == more;
  }

  /**
    `-c` on its own: a non-boolean (or a boolean followed by a `true`/`false` word) takes the next token
    verbatim, `undefined` past the end, and two tokens go; a boolean otherwise gets its negated default
    and only `-c` goes.
  */
  lemma {:induction false} ShortAlone(t: Table, i: nat, c: char, more: seq<string>)
    requires Clean(t) && i < |t| && t[i].short == [c] && IsTailChar(c)
    ensures t[i].kind != "boolean" || IsBoolWord(ArgText(more, 0)) ==>
      NextOption(Build(t), [['-', c]] + more) == Yield(t[i].long, ArgAt(more, 0), Splice(more, 1))
    ensures t[i].kind == "boolean" && !IsBoolWord(ArgText(more, 0)) ==>
      NextOption(Build(t), [['-', c]] + more) == Yield(t[i].long, Bool(!Truthy(t[i].default)), more)
  {
    CleanLookups(t, i);
    var args := [['-', c]] + more;
    assert ShortMatch(['-', c]) by {
      assert ['-', c][1..] == [c];
      assert Run(Initial, [c]) == Advance(Initial, c);
    }
    assert ArgText(args, 1) == ArgText(more, 0) && ArgAt(args, 1) == ArgAt(more, 0);
    assert Splice(args, 2) == Splice(more, 1) && Splice(args, 1) == more;
  }

  /**
    `--name` on its own in a clean table: a non-boolean (or a boolean followed by a `true`/`false` word)
    takes the next token and two tokens go. A bare boolean reads its default through `parsing[short]`,
    which a clean table never has, so the step fails on an undefined entry.
  */
  lemma {:induction false} LongAlone(t: Table, i: nat, more: seq<string>)
    requires Clean(t) && i < |t| && LongMatch("--" + t[i].long) && '=' !in t[i].long
    ensures t[i].kind != "boolean" || IsBoolWord(ArgText(more, 0)) ==>
      NextOption(Build(t), ["--" + t[i].long] + more) == Yield(t[i].long, ArgAt(more, 0), Splice(more, 1))
    ensures t[i].kind == "boolean" && !IsBoolWord(ArgText(more, 0)) ==>
      NextOption(Build(t), ["--" + t[i].long] + more) == Abort(UndefinedEntry(t[i].short))
  {
    CleanLookups(t, i);
    var tok := "--" + t[i].long;
    var args := [tok] + more;
    assert '=' !in tok by {
      assert forall k :: 2 <= k < |tok| ==> tok[k] == t[i].long[k - 2];
    }
    if ShortMatch(tok) {
      ShortShape(tok);
    }
    assert Slice(tok, 2) == t[i].long;
    assert ArgText(args, 1) == ArgText(more, 0) && ArgAt(args, 1) == ArgAt(more, 0);
    assert Splice(args, 2) == Splice(more, 1);
  }

  /** A one-character `=` value matches neither pattern, so the whole token is looked up and rejected. */
  lemma {:induction false} OneCharValueUnknown(T: Tables, key: char, v: char, more: seq<string>)
    requires !Known(T, ['-', key, '=', v])
    ensures NextOption(T, [['-', key, '=', v]] + more) == Abort(UnknownOption(['-', key, '=', v]))
  {
    ShortOneCharValueRejected(key, v);
  }

  lemma {:induction false} LongOneCharValueUnknown(T: Tables, name: string, v: char, more: seq<string>)
    requires !Known(T, "--" + name + "=" + [v])
    ensures NextOption(T, ["--" + name + "=" + [v]] + more) == Abort(UnknownOption("--" + name + "=" + [v]))
  {
    LongOneCharValueRejected(name, v);
  }

  /** A short flag whose character no lookup object knows never yields a pair. */
  lemma {:induction false} UnknownShortAborts(T: Tables, tok: string, more: seq<string>)
    requires ShortMatch(tok) && !Known(T, [tok[1]])
    ensures NextOption(T, [tok] + more).Abort?
  {
    ShortShape(tok);
    if '=' in tok {
      ShortEqualsForm(T, tok, more);
    }
  }

  /** A long flag whose name no lookup object knows never yields a pair. */
  lemma {:induction false} UnknownLongAborts(T: Tables, name: string, more: seq<string>)
    requires LongMatch("--" + name) && !Known(T, name) && '=' !in name
    ensures NextOption(T, ["--" + name] + more).Abort?
  {
    var tok := "--" + name;
    assert '=' !in tok by {
      assert forall k :: 2 <= k < |tok| ==> tok[k] == name[k - 2];
    }
    if ShortMatch(tok) {
      ShortShape(tok);
    }
    assert Slice(tok, 2) == name;
  }

  /**
    A token of neither shape that happens to be a declared name consumes nothing, so `parse` would repeat
    the same step forever.
  */
  lemma {:induction false} DeclaredWordNeverEnds(T: Tables, tok: string, more: seq<string>)
    requires !ShortMatch(tok) && !LongMatch(tok) && Known(T, tok)
    ensures NextOption(T, [tok] + more) == Yield(KeyFor(T, tok), Undefined, [tok] + more)
    ensures Scan(T, [tok] + more) == Err(NoProgress(tok))
  {
  }

  /**
    A non-boolean short option given as the last token stores `undefined`, so the result holds its
    declared default.
  */
  lemma {:induction false} TrailingShortGetsDefault(t: Table, i: nat, c: char)
    requires Clean(t) && i < |t| && t[i].short == [c] && IsTailChar(c) && t[i].kind != "boolean"
    ensures Parse(t, [['-', c]]).Ok?
    ensures Parse(t, [['-', c]]).value[t[i].long] == t[i].default
  {
    ShortAlone(t, i, c, []);
    assert [['-', c]] + [] == [['-', c]];
    var T := Build(t);
    assert NextOption(T, [['-', c]]) == Yield(t[i].long, Undefined, []);
    assert Scan(T, []) == Ok([]);
    var args := [['-', c]];
    assert |args| == 1;
    assert NextOption(T, args).rest != args;
    assert Scan(T, args) == Ok([(t[i].long, Undefined)] + []);
    assert [(t[i].long, Undefined)] + [] == [(t[i].long, Undefined)];
    assert LastFor([(t[i].long, Undefined)], t[i].long) == Some(Undefined);
  }

  /**
    When the first step consumes everything, option `i` ends with the stored value (its default if that
    is `undefined`) and every other option with its default.
  */
  lemma {:induction false} SingleStep(t: Table, args: seq<string>, i: nat, v: Value)
    requires DistinctLongs(t) && i < |t| && |args| > 0
    requires NextOption(Build(t), args) == Yield(t[i].long, v, [])
    ensures Parse(t, args).Ok?
    ensures Parse(t, args).value[t[i].long] == if v == Undefined then t[i].default else v
    ensures forall j :: 0 <= j < |t| && j != i ==> Parse(t, args).value[t[j].long] == t[j].default
  {
    var T := Build(t);
    assert Scan(T, []) == Ok([]);
    assert NextOption(T, args).rest != args;
    assert Scan(T, args) == Ok([(t[i].long, v)] + []);
    assert [(t[i].long, v)] + [] == [(t[i].long, v)];
    var pairs := [(t[i].long, v)];
    assert LastFor(pairs, t[i].long) == Some(v);
    forall j | 0 <= j < |t| && j != i
      ensures Parse(t, args).value[t[j].long] == t[j].default
    {
      assert t[j].long != t[i].long;
      assert LastFor(pairs, t[j].long) == None;
    }
  }

  /** One yielded step followed by a successful scan of what is left. */
  lemma {:induction false} ScanStep(T: Tables, args: seq<string>, key: string, val: Value, rest: seq<string>)
    requires |args| > 0 && NextOption(T, args) == Yield(key, val, rest) && rest != args
    requires Scan(T, rest).Ok?
    ensures Scan(T, args) == Ok([(key, val)] + Scan(T, rest).value)
  {
  }

  /** `-c` alone, a boolean not followed by a true/false word: one pair, nothing left. */
  lemma {:induction false} ScanOneBoolean(t: Table, k: nat, c: char)
    requires Clean(t) && k < |t| && t[k].short == [c] && IsTailChar(c) && t[k].kind == "boolean"
    ensures Scan(Build(t), [['-', c]]) == Ok([(t[k].long, Bool(!Truthy(t[k].default)))])
  {
    var T := Build(t);
    var vk := Bool(!Truthy(t[k].default));
    UndefinedNotBoolWord();
    assert Scan(T, []) == Ok([]);
    ShortAlone(t, k, c, []);
    assert [['-', c]] + [] == [['-', c]];
    ScanStep(T, [['-', c]], t[k].long, vk, []);
    assert [(t[k].long, vk)] + [] == [(t[k].long, vk)];
  }

  /** `-bc` of two booleans: `b`'s pair, then the scan of `-c`. */
  lemma {:induction false} ScanTwoBooleans(t: Table, j: nat, k: nat, b: char, c: char)
    requires Clean(t) && j < |t| && k < |t|
    requires t[j].short == [b] && t[k].short == [c] && IsTailChar(b) && IsTailChar(c)
    requires t[j].kind == "boolean" && t[k].kind == "boolean"
    ensures Scan(Build(t), [['-', b, c]]) == Ok([(t[j].long, Bool(!Truthy(t[j].default))),
                                                (t[k].long, Bool(!Truthy(t[k].default)))])
  {
    var T := Build(t);
    var tok2, tok3 := ['-', b, c], ['-', c];
    var vj, vk := Bool(!Truthy(t[j].default)), Bool(!Truthy(t[k].default));
    UndefinedNotBoolWord();
    ScanOneBoolean(t, k, c);
    TailRunMatches(tok2[1..]);
    CombinedBareBoolean(t, j, tok2, []);
    assert "-" + tok2[2..] == tok3 && [tok2] + [] == [tok2] && [tok3] + [] == [tok3];
    assert NextOption(T, [tok2]) == Yield(t[j].long, vj, [tok3]);
    assert [tok3] != [tok2] by { assert |[tok3][0]| != |[tok2][0]|; }
    ScanStep(T, [tok2], t[j].long, vj, [tok3]);
    assert [(t[j].long, vj)] + [(t[k].long, vk)] == [(t[j].long, vj), (t[k].long, vk)];
  }

  /** The three steps of `-abc`: `-abc` yields `a` and leaves `-bc`, which yields `b` and leaves `-c`. */
  lemma {:induction false} CombinedScan(t: Table, i: nat, j: nat, k: nat, a: char, b: char, c: char)
    requires Clean(t) && i < |t| && j < |t| && k < |t|
    requires t[i].short == [a] && t[j].short == [b] && t[k].short == [c]
    requires IsTailChar(a) && IsTailChar(b) && IsTailChar(c)
    requires t[i].kind == "boolean" && t[j].kind == "boolean" && t[k].kind == "boolean"
    ensures Scan(Build(t), [['-', a, b, c]]) == Ok([(t[i].long, Bool(!Truthy(t[i].default))),
                                                   (t[j].long, Bool(!Truthy(t[j].default))),
                                                   (t[k].long, Bool(!Truthy(t[k].default)))])
  {
    var T := Build(t);
    var tok1, tok2 := ['-', a, b, c], ['-', b, c];
    var vi, vj, vk := Bool(!Truthy(t[i].default)), Bool(!Truthy(t[j].default)), Bool(!Truthy(t[k].default));
    UndefinedNotBoolWord();
    ScanTwoBooleans(t, j, k, b, c);
    TailRunMatches(tok1[1..]);
    CombinedBareBoolean(t, i, tok1, []);
    assert "-" + tok1[2..] == tok2 && [tok1] + [] == [tok1] && [tok2] + [] == [tok2];
    assert NextOption(T, [tok1]) == Yield(t[i].long, vi, [tok2]);
    assert [tok2] != [tok1] by { assert |[tok2][0]| != |[tok1][0]|; }
    assert Scan(T, [tok2]) == Ok([(t[j].long, vj), (t[k].long, vk)]);
    ScanStep(T, [tok1], t[i].long, vi, [tok2]);
    assert [(t[i].long, vi)] + [(t[j].long, vj), (t[k].long, vk)]
        == [(t[i].long, vi), (t[j].long, vj), (t[k].long, vk)];
  }

  /** The last value stored for each of three distinct keys is its own. */
  lemma {:induction false} LastOfThree(x: string, y: string, z: string, u: Value, v: Value, w: Value, other: string)
    requires x != y && y != z && x != z
    ensures LastFor([(x, u), (y, v), (z, w)], x) == Some(u)
    ensures LastFor([(x, u), (y, v), (z, w)], y) == Some(v)
    ensures LastFor([(x, u), (y, v), (z, w)], z) == Some(w)
    ensures other != x && other != y && other != z ==> LastFor([(x, u), (y, v), (z, w)], other) == None
  {
    var pairs := [(x, u), (y, v), (z, w)];
    assert pairs[1..] == [(y, v), (z, w)];
    assert pairs[1..][1..] == [(z, w)];
    assert [(z, w)][1..] == [];
    forall key
      ensures LastFor([(z, w)], key) == if key == z then Some(w) else None
      ensures LastFor([(y, v), (z, w)], key) == if key == z then Some(w) else if key == y then Some(v) else None
      ensures LastFor(pairs, key) ==
        if key == z then Some(w) else if key == y then Some(v) else if key == x then Some(u) else None
    {
      assert LastFor([], key) == None;
    }
  }

  /**
    Combined `-abc` of three boolean flags with no `true`/`false` word after it: every one of the three
    options ends with its negated default (all `true` when the defaults are `false`), every other option
    with its default.
  */
  lemma {:induction false} CombinedBooleans(t: Table, i: nat, j: nat, k: nat, a: char, b: char, c: char)
    requires Clean(t) && i < |t| && j < |t| && k < |t| && i != j && j != k && i != k
    requires t[i].short == [a] && t[j].short == [b] && t[k].short == [c]
    requires IsTailChar(a) && IsTailChar(b) && IsTailChar(c)
    requires t[i].kind == "boolean" && t[j].kind == "boolean" && t[k].kind == "boolean"
    ensures Parse(t, [['-', a, b, c]]).Ok?
    ensures Parse(t, [['-', a, b, c]]).value[t[i].long] == Bool(!Truthy(t[i].default))
    ensures Parse(t, [['-', a, b, c]]).value[t[j].long] == Bool(!Truthy(t[j].default))
    ensures Parse(t, [['-', a, b, c]]).value[t[k].long] == Bool(!Truthy(t[k].default))
    ensures forall n :: 0 <= n < |t| && n != i && n != j && n != k ==>
      Parse(t, [['-', a, b, c]]).value[t[n].long] == t[n].default
  {
    CombinedScan(t, i, j, k, a, b, c);
    var vi, vj, vk := Bool(!Truthy(t[i].default)), Bool(!Truthy(t[j].default)), Bool(!Truthy(t[k].default));
    LastOfThree(t[i].long, t[j].long, t[k].long, vi, vj, vk, "");
    forall n | 0 <= n < |t| && n != i && n != j && n != k
      ensures Parse(t, [['-', a, b, c]]).value[t[n].long] == t[n].default
    {
      LastOfThree(t[i].long, t[j].long, t[k].long, vi, vj, vk, t[n].long);
    }
  }
}
