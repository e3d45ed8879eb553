/**
  Persistent command history of the lil-repl (src/index.js): the "command history compression" filter run
  when the REPL exits, the text written to the history file, the transform that turns that text back into
  history lines, and tab completion of the REPL's own commands.
*/
module History {
  import opened Results
  import opened Text

  // ---------------------------------------------------------------------------------------------------------
  // Compression
  // ---------------------------------------------------------------------------------------------------------

  /**
    The filter callback of src/index.js:106-120 run over `lines` from left to right. `marker` is the
    closure's `lastLine`, `None` standing for `undefined`: a line is kept when there is no marker or it
    differs from the marker, and becomes the new marker; a line equal to the marker is dropped and clears it.
  */
  function Filter(lines: seq<string>, marker: Option<string>): (r: seq<string>)
    ensures |r| <= |lines|
    ensures |lines| > 0 && (marker.None? || lines[0] != marker.value) ==> |r| > 0 && r[0] == lines[0]
    decreases |lines|
  {
    if |lines| == 0 then []
    else if marker.None? || lines[0] != marker.value then [lines[0]] + Filter(lines[1..], Some(lines[0]))
    else Filter(lines[1..], None)
  }

  /** The compression filter as the exit handler runs it, starting with `lastLine` undefined. */
  function Compress(lines: seq<string>): (r: seq<string>)
    ensures |r| <= |lines|
    ensures |lines| > 0 ==> |r| > 0 && r[0] == lines[0]
  {
    Filter(lines, None)
  }

  /**
    Independent description of which lines survive: the first line always does, and a later line is
    dropped exactly when it repeats the line before it and that line was itself kept.
  */
  predicate Kept(lines: seq<string>, i: nat)
    requires i < |lines|
  {
    i == 0 || !(lines[i] == lines[i - 1] && Kept(lines, i - 1))
  }

  /** The kept lines among the first `n`, in their original order. */
  function Pick(lines: seq<string>, n: nat): seq<string>
    requires n <= |lines|
  {
    if n == 0 then [] else Pick(lines, n - 1) + (if Kept(lines, n - 1) then [lines[n - 1]] else [])
  }

  /** The filter's `lastLine` just before it looks at line `k`. */
  function MarkerAt(lines: seq<string>, k: nat): Option<string>
    requires k <= |lines|
  {
    if k > 0 && Kept(lines, k - 1) then Some(lines[k - 1]) else None
  }

  lemma {:induction false} FilterFrom(lines: seq<string>, k: nat)
    requires k <= |lines|
    ensures Pick(lines, k) + Filter(lines[k..], MarkerAt(lines, k)) == Pick(lines, |lines|)
    decreases |lines| - k
  {
    if k < |lines| {
      var rest := lines[k..];
      assert rest[0] == lines[k] && rest[1..] == lines[k + 1..];
      var kept := MarkerAt(lines, k).None? || lines[k] != MarkerAt(lines, k).value;
      assert kept <==> Kept(lines, k);
      FilterFrom(lines, k + 1);
      if kept {
        assert Filter(rest, MarkerAt(lines, k)) == [lines[k]] + Filter(lines[k + 1..], MarkerAt(lines, k + 1));
        assert Pick(lines, k + 1) == Pick(lines, k) + [lines[k]];
      } else {
        assert Filter(rest, MarkerAt(lines, k)) == Filter(lines[k + 1..], MarkerAt(lines, k + 1));
        assert Pick(lines, k + 1) == Pick(lines, k);
      }
    } else {
      assert lines[k..] == [];
    }
  }

  /** The filter keeps exactly the lines `Kept` describes, in order. */
  lemma {:induction false} CompressIsPick(lines: seq<string>)
    ensures Compress(lines) == Pick(lines, |lines|)
  {
    FilterFrom(lines, 0);
    assert lines[0..] == lines;
    assert Pick(lines, 0) == [] && MarkerAt(lines, 0) == None;
    assert Compress(lines) == Filter(lines[0..], MarkerAt(lines, 0));
  }

  /**
    What a dropped line is: a copy of the line right before it, which was kept. Hence no two neighbouring
    lines are both dropped.
  */
  lemma {:induction false} DroppedIsRepeat(lines: seq<string>, i: nat)
    requires i < |lines| && !Kept(lines, i)
    ensures i > 0 && lines[i] == lines[i - 1] && Kept(lines, i - 1)
  {
  }

  /** Every line of `Pick` comes from the input, no more often than it occurs there. */
  lemma {:induction false} PickSubMultiset(lines: seq<string>, n: nat)
    requires n <= |lines|
    ensures multiset(Pick(lines, n)) <= multiset(lines[..n])
  {
    if n > 0 {
      PickSubMultiset(lines, n - 1);
      assert lines[..n] == lines[..n - 1] + [lines[n - 1]];
    }
  }

  /** At least half the lines survive: the lines kept number at least `ceil(n/2)`. */
  lemma {:induction false} PickHalf(lines: seq<string>, n: nat)
    requires n <= |lines|
    ensures 2 * |Pick(lines, n)| >= n + (if n > 0 && Kept(lines, n - 1) then 1 else 0)
  {
    if n > 0 {
      PickHalf(lines, n - 1);
    }
  }

  /** `Pick` drops a line exactly when one of the lines it looks at is not kept. */
  lemma {:induction false} PickAll(lines: seq<string>, n: nat)
    requires n <= |lines|
    ensures |Pick(lines, n)| <= n
    ensures (forall i :: 0 <= i < n ==> Kept(lines, i)) ==> Pick(lines, n) == lines[..n]
    ensures (exists i :: 0 <= i < n && !Kept(lines, i)) ==> |Pick(lines, n)| < n
  {
    if n > 0 {
      PickAll(lines, n - 1);
      assert lines[..n] == lines[..n - 1] + [lines[n - 1]];
      if exists i :: 0 <= i < n && !Kept(lines, i) {
        var i :| 0 <= i < n && !Kept(lines, i);
        if i < n - 1 {
          assert |Pick(lines, n - 1)| < n - 1;
        }
      }
    }
  }

  /** No two neighbouring lines equal. */
  predicate NoAdjacentRepeats(lines: seq<string>)
  {
    forall i :: 0 < i < |lines| ==> lines[i] != lines[i - 1]
  }

  /** Compression only removes lines: its output is a sub-multiset of the input. */
  lemma {:induction false} CompressSubMultiset(lines: seq<string>)
    ensures multiset(Compress(lines)) <= multiset(lines)
  {
    CompressIsPick(lines);
    PickSubMultiset(lines, |lines|);
    assert lines[..|lines|] == lines;
  }

  /** Compression keeps at least half the lines. */
  lemma {:induction false} CompressHalf(lines: seq<string>)
    ensures |lines| <= 2 * |Compress(lines)|
  {
    CompressIsPick(lines);
    PickHalf(lines, |lines|);
  }

  /** Compression leaves a list unchanged exactly when no two neighbouring lines are equal. */
  lemma {:induction false} CompressUnchanged(lines: seq<string>)
    ensures Compress(lines) == lines <==> NoAdjacentRepeats(lines)
  {
    CompressIsPick(lines);
    PickAll(lines, |lines|);
    assert lines[..|lines|] == lines;
    if NoAdjacentRepeats(lines) {
      forall i | 0 <= i < |lines|
        ensures Kept(lines, i)
      {
      }
    } else {
      var i :| 0 < i < |lines| && lines[i] == lines[i - 1];
      if Kept(lines, i - 1) {
        assert !Kept(lines, i);
      } else {
        assert !Kept(lines, i - 1);
      }
    }
  }

  /** `n` copies of `x`. */
  function Repeat(x: string, n: nat): (r: seq<string>)
    ensures |r| == n && forall i :: 0 <= i < n ==> r[i] == x
  {
    if n == 0 then [] else [x] + Repeat(x, n - 1)
  }

  lemma {:induction false} FilterRun(x: string, n: nat)
    ensures Filter(Repeat(x, n), None) == Repeat(x, (n + 1) / 2)
    ensures Filter(Repeat(x, n), Some(x)) == Repeat(x, n / 2)
  {
    if n > 0 {
      FilterRun(x, n - 1);
      assert Repeat(x, n)[0] == x && Repeat(x, n)[1..] == Repeat(x, n - 1);
    }
  }

  /** A run of `n` equal lines compresses to `ceil(n/2)` copies: every second repeat survives. */
  lemma {:induction false} CompressRun(x: string, n: nat)
    ensures Compress(Repeat(x, n)) == Repeat(x, (n + 1) / 2)
  {
    FilterRun(x, n);
  }

  /** Compressing twice can shorten a list further, so compression is not idempotent. */
  lemma CompressNotIdempotent()
    ensures Compress(["ls", "ls", "ls"]) == ["ls", "ls"]
    ensures Compress(Compress(["ls", "ls", "ls"])) == ["ls"]
  {
    CompressRun("ls", 3);
    CompressRun("ls", 2);
    assert Repeat("ls", 3) == ["ls", "ls", "ls"];
    assert Repeat("ls", 2) == ["ls", "ls"];
    assert Repeat("ls", 1) == ["ls"];
  }

  // ---------------------------------------------------------------------------------------------------------
  // The history file
  // ---------------------------------------------------------------------------------------------------------

  /** The lines that are not empty after trimming, untrimmed and in order (`filter(line => line.trim())`). */
  function NonBlank(xs: seq<string>): (r: seq<string>)
    ensures |r| <= |xs|
    ensures forall x :: x in r <==> x in xs && !IsBlank(x)
  {
    if |xs| == 0 then []
    else if IsBlank(xs[0]) then NonBlank(xs[1..])
    else [xs[0]] + NonBlank(xs[1..])
  }

  /**
    The filter works line by line: filtering a concatenation filters each part in place. With the membership
    clause on one-line lists this fixes the order and the number of copies of what survives.
  */
  lemma {:induction false} NonBlankConcat(a: seq<string>, b: seq<string>)
    ensures NonBlank(a + b) == NonBlank(a) + NonBlank(b)
  {
    if |a| == 0 {
      assert a + b == b;
    } else {
      assert (a + b)[0] == a[0] && (a + b)[1..] == a[1..] + b;
      NonBlankConcat(a[1..], b);
    }
  }

  lemma {:induction false} NonBlankKeepsClean(xs: seq<string>)
    requires forall i :: 0 <= i < |xs| ==> !IsBlank(xs[i])
    ensures NonBlank(xs) == xs
  {
    if |xs| > 0 {
      NonBlankKeepsClean(xs[1..]);
    }
  }

  lemma {:induction false} NonBlankAppendBlank(xs: seq<string>, b: string)
    requires IsBlank(b)
    ensures NonBlank(xs + [b]) == NonBlank(xs)
  {
    if |xs| == 0 {
      assert xs + [b] == [b];
      assert [b][1..] == [];
    } else {
      assert (xs + [b])[1..] == xs[1..] + [b];
      NonBlankAppendBlank(xs[1..], b);
    }
  }

  function Reverse(xs: seq<string>): (r: seq<string>)
    ensures |r| == |xs| && forall i :: 0 <= i < |xs| ==> r[i] == xs[|xs| - 1 - i]
    ensures multiset(r) == multiset(xs)
  {
    if |xs| == 0 then []
    else
      assert xs == [xs[0]] + xs[1..];
      Reverse(xs[1..]) + [xs[0]]
  }

  /** Reversing a concatenation reverses each part and swaps them. */
  lemma {:induction false} ReverseConcat(a: seq<string>, b: seq<string>)
    ensures Reverse(a + b) == Reverse(b) + Reverse(a)
  {
    if |a| == 0 {
      assert a + b == b && Reverse(a) == [];
      assert Reverse(b) + [] == Reverse(b);
    } else {
      assert (a + b)[0] == a[0] && (a + b)[1..] == a[1..] + b;
      ReverseConcat(a[1..], b);
      assert Reverse(a + b) == Reverse(a[1..] + b) + [a[0]];
      assert Reverse(a) == Reverse(a[1..]) + [a[0]];
      assert (Reverse(b) + Reverse(a[1..])) + [a[0]] == Reverse(b) + (Reverse(a[1..]) + [a[0]]);
    }
  }


  /**
    `loadHistory` (src/index.js:195-213): the file's text split on newlines, blank lines dropped, newest line
    first; a missing file (`None`) gives no history.
  */
  function LoadHistory(file: Option<string>): (r: seq<string>)
    ensures forall i :: 0 <= i < |r| ==> !IsBlank(r[i]) && '\n' !in r[i]
    ensures file.None? ==> r == []
    ensures file.Some? ==> |r| <= Count(file.value, '\n') + 1
    ensures file.Some? ==> forall x :: x in r <==> x in Split(file.value, '\n') && !IsBlank(x)
  {
    match file
    case None => []
    case Some(text) =>
      var kept := NonBlank(Split(text, '\n'));
      var r := Reverse(kept);
      assert forall x :: x in r <==> x in multiset(r) <==> x in multiset(kept) <==> x in kept;
      forall i | 0 <= i < |r|
        ensures !IsBlank(r[i]) && '\n' !in r[i]
      {
        assert r[i] in kept;
        assert r[i] in Split(text, '\n');
      }
      r
  }

  /** A file of one line loads as that line, or as nothing when the line is blank. */
  lemma {:induction false} LoadOneLine(line: string)
    requires '\n' !in line
    ensures LoadHistory(Some(line)) == if IsBlank(line) then [] else [line]
  {
    SplitPlain(line, '\n');
    assert [line][1..] == [];
  }

  /**
    Appending a line to the file puts it at the head of the loaded history (newest first), unless it is
    blank; the lines before it load as they did.
  */
  lemma {:induction false} LoadAppendLine(text: string, line: string)
    requires '\n' !in line
    ensures LoadHistory(Some(text + "\n" + line))
      == (if IsBlank(line) then [] else [line]) + LoadHistory(Some(text))
  {
    var pieces := Split(text, '\n');
    var last := NonBlank([line]);
    assert last == if IsBlank(line) then [] else [line] by {
      assert [line][1..] == [];
    }
    calc {
      LoadHistory(Some(text + "\n" + line));
      { LoadIsReverse(text + "\n" + line); }
      Reverse(NonBlank(Split(text + "\n" + line, '\n')));
      { SplitBeforeLast(text, line, '\n'); }
      Reverse(NonBlank(pieces + [line]));
      { NonBlankConcat(pieces, [line]); }
      Reverse(NonBlank(pieces) + last);
      { ReverseConcat(NonBlank(pieces), last); }
      Reverse(last) + Reverse(NonBlank(pieces));
      { LoadIsReverse(text); }
      last + LoadHistory(Some(text));
    }
  }

  lemma {:induction false} LoadIsReverse(text: string)
    ensures LoadHistory(Some(text)) == Reverse(NonBlank(Split(text, '\n')))
  {
  }

  /** An entry that survives the file: not blank and on one line. */
  predicate Storable(line: string)
  {
    !IsBlank(line) && '\n' !in line
  }

  /** Loading the text `data.join('\n') + '\n'` gives the entries back, newest first. */
  lemma {:induction false} LoadWritten(data: seq<string>)
    requires |data| > 0 && forall i :: 0 <= i < |data| ==> Storable(data[i])
    ensures LoadHistory(Some(Join(data, '\n') + "\n")) == Reverse(data)
  {
    var text := Join(data, '\n') + "\n";
    JoinTrailingEmpty(data, '\n');
    assert text == Join(data + [""], '\n');
    SplitPieces(data);
    assert Split(text, '\n') == data + [""];
    ClearLines(data);
    assert NonBlank(Split(text, '\n')) == data;
  }

  lemma {:induction false} SplitPieces(data: seq<string>)
    requires forall i :: 0 <= i < |data| ==> Storable(data[i])
    ensures Split(Join(data + [""], '\n'), '\n') == data + [""]
  {
    assert forall i :: 0 <= i < |data + [""]| ==> '\n' !in (data + [""])[i];
    SplitJoin(data + [""], '\n');
  }

  lemma {:induction false} ClearLines(data: seq<string>)
    requires forall i :: 0 <= i < |data| ==> Storable(data[i])
    ensures NonBlank(data + [""]) == data
  {
    assert IsBlank("");
    NonBlankAppendBlank(data, "");
    NonBlankKeepsClean(data);
  }

  /**
    The text the exit handler writes (src/index.js:87-101, 106-124): `None` when the session ran no command,
    else the session's lines followed by the loaded history, compressed, one per line with a final newline.
    Compression runs whatever the `compressHistory` option says.
  */
  function SaveHistory(session: seq<string>, file: Option<string>): (written: Option<string>)
    ensures written.None? <==> |session| == 0
    ensures written.Some? ==> |written.value| > 0 && written.value[|written.value| - 1] == '\n'
  {
    if |session| == 0 then None
    else Some(Join(Compress(session + LoadHistory(file)), '\n') + "\n")
  }

  /** Every line of a sub-multiset of storable lines is storable. */
  lemma {:induction false} StorableSub(xs: seq<string>, ys: seq<string>)
    requires multiset(xs) <= multiset(ys) && forall i :: 0 <= i < |ys| ==> Storable(ys[i])
    ensures forall i :: 0 <= i < |xs| ==> Storable(xs[i])
  {
    forall i | 0 <= i < |xs|
      ensures Storable(xs[i])
    {
      assert xs[i] in multiset(xs);
      assert xs[i] in multiset(ys);
      var j :| 0 <= j < |ys| && ys[j] == xs[i];
    }
  }

  /**
    Saving then loading: when every session line is storable, the next start loads the compressed merge of
    this session and the old history, in reverse. The old history, loaded newest first, is written back in
    that order, so its order flips at every save.
  */
  lemma {:induction false} SaveThenLoad(session: seq<string>, file: Option<string>)
    requires |session| > 0 && forall i :: 0 <= i < |session| ==> Storable(session[i])
    ensures LoadHistory(SaveHistory(session, file)) == Reverse(Compress(session + LoadHistory(file)))
  {
    var merged := session + LoadHistory(file);
    CompressSubMultiset(merged);
    StorableSub(Compress(merged), merged);
    LoadWritten(Compress(merged));
  }

  // ---------------------------------------------------------------------------------------------------------
  // Tab completion
  // ---------------------------------------------------------------------------------------------------------

  /** The REPL's own commands, the keys of `fullCommands` (src/index.js:52-56). */
  const Commands: seq<string> := ["clear", "exit"]

  /** The commands that start with `line` (`c.indexOf(line) === 0`), in their original order. */
  function Hits(commands: seq<string>, line: string): (r: seq<string>)
    ensures |r| <= |commands|
    ensures forall c :: c in r <==> c in commands && IsPrefix(line, c)
  {
    if |commands| == 0 then []
    else if IsPrefix(line, commands[0]) then [commands[0]] + Hits(commands[1..], line)
    else Hits(commands[1..], line)
  }

  /**
    `customAutocomplete` (src/index.js:189-193): the completions offered for `line` and the text they
    complete. The hits when there are any, otherwise every command.
  */
  function Complete(commands: seq<string>, line: string): (r: (seq<string>, string))
    ensures r.1 == line
    ensures (exists c :: c in commands && IsPrefix(line, c)) ==>
      r.0 == Hits(commands, line) && forall c :: c in r.0 <==> c in commands && IsPrefix(line, c)
    ensures (forall c :: c in commands ==> !IsPrefix(line, c)) ==> r.0 == commands
  {
    var hits := Hits(commands, line);
    assert |hits| > 0 ==> hits[0] in hits;
    (if |hits| > 0 then hits else commands, line)
  }

  /**
    Hits keep the commands' order: filtering a concatenation filters each part in place, and a list whose
    every command matches is its own hit list.
  */
  lemma {:induction false} HitsConcat(a: seq<string>, b: seq<string>, line: string)
    ensures Hits(a + b, line) == Hits(a, line) + Hits(b, line)
  {
    if |a| == 0 {
      assert a + b == b;
    } else {
      assert (a + b)[0] == a[0] && (a + b)[1..] == a[1..] + b;
      HitsConcat(a[1..], b, line);
    }
  }

  lemma {:induction false} HitsAll(commands: seq<string>, line: string)
    requires forall i :: 0 <= i < |commands| ==> IsPrefix(line, commands[i])
    ensures Hits(commands, line) == commands
  {
    if |commands| > 0 {
      HitsAll(commands[1..], line);
    }
  }

  /** An empty line is a prefix of every command, so Tab on an empty prompt offers all of them. */
  lemma CompleteExamples()
    ensures Complete(Commands, "") == (Commands, "")
    ensures Complete(Commands, "c") == (["clear"], "c")
    ensures Complete(Commands, "x") == (Commands, "x")
  {
    assert "clear"[..0] == "" && "exit"[..0] == "";
    assert "clear"[..1] == "c" && "exit"[..1] == "e";
    assert Commands[1..] == ["exit"] && ["exit"][1..] == [];
    HitsAll(Commands, "");
    assert Hits(["exit"], "c") == Hits([], "c") == [];
    assert Hits(Commands, "c") == ["clear"] + Hits(["exit"], "c");
    assert ["clear"] + [] == ["clear"];
  }
}
