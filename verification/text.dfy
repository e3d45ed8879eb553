/** String helpers with the meaning JavaScript gives to the corresponding built-ins. */
module Text {

  /** Number of occurrences of `c` in `s`. */
  function Count(s: string, c: char): (n: nat)
    ensures n <= |s|
    ensures n == 0 <==> c !in s
  {
    if |s| == 0 then 0 else (if s[0] == c then 1 else 0) + Count(s[1..], c)
  }

  lemma {:induction false} CountConcat(a: string, b: string, c: char)
    ensures Count(a + b, c) == Count(a, c) + Count(b, c)
  {
    if |a| == 0 {
      assert a + b == b;
    } else {
      assert (a + b)[1..] == a[1..] + b;
      CountConcat(a[1..], b, c);
    }
  }

  /** `xs.join(sep)` for a one-character separator. */
  function Join(xs: seq<string>, sep: char): string
  {
    if |xs| == 0 then ""
    else if |xs| == 1 then xs[0]
    else xs[0] + [sep] + Join(xs[1..], sep)
  }

  /** `s.split(sep)` for a one-character separator: the text between consecutive separators. */
  function Split(s: string, sep: char): (r: seq<string>)
    ensures |r| == Count(s, sep) + 1
    ensures forall i :: 0 <= i < |r| ==> sep !in r[i]
  {
    if |s| == 0 then [""]
    else
      var rest := Split(s[1..], sep);
      if s[0] == sep then [""] + rest
      else [[s[0]] + rest[0]] + rest[1..]
  }

  /** `join` undoes `split`: the pieces and separators make up the original text. */
  lemma {:induction false} JoinSplit(s: string, sep: char)
    ensures Join(Split(s, sep), sep) == s
  {
    if |s| > 0 {
      var rest := Split(s[1..], sep);
      JoinSplit(s[1..], sep);
      if s[0] == sep {
        assert s == [sep] + s[1..];
      } else {
        var r := [[s[0]] + rest[0]] + rest[1..];
        assert r == Split(s, sep);
        if |rest| == 1 {
          assert s == [s[0]] + s[1..];
        } else {
          assert r[1..] == rest[1..];
          assert s == [s[0]] + s[1..];
        }
      }
    }
  }

  /** Splitting a separator-free string gives back the string alone. */
  lemma {:induction false} SplitPlain(s: string, sep: char)
    requires sep !in s
    ensures Split(s, sep) == [s]
  {
    if |s| > 0 {
      SplitPlain(s[1..], sep);
      assert [s[0]] + s[1..] == s;
    }
  }

  /** Splitting text in which the first separator follows `a` gives `a` and then the split of the rest. */
  lemma {:induction false} SplitAfterField(a: string, b: string, sep: char)
    requires sep !in a
    ensures Split(a + [sep] + b, sep) == [a] + Split(b, sep)
  {
    if |a| == 0 {
      assert a + [sep] + b == [sep] + b;
      assert ([sep] + b)[1..] == b;
    } else {
      assert (a + [sep] + b)[1..] == a[1..] + [sep] + b;
      SplitAfterField(a[1..], b, sep);
      assert [a[0]] + a[1..] == a;
    }
  }

  /** Cutting `s` at a position holding a separator, with none before it. */
  lemma {:induction false} SplitAt(s: string, i: nat, sep: char)
    requires i < |s| && s[i] == sep && sep !in s[..i]
    ensures Split(s, sep) == [s[..i]] + Split(s[i + 1..], sep)
  {
    assert s == s[..i] + [sep] + s[i + 1..] by {
      assert s == s[..i] + s[i..];
      assert s[i..] == [s[i]] + s[i + 1..];
    }
    SplitAfterField(s[..i], s[i + 1..], sep);
  }

  /** Text after the last separator is the last piece; the text before it splits on its own. */
  lemma {:induction false} SplitBeforeLast(a: string, b: string, sep: char)
    requires sep !in b
    ensures Split(a + [sep] + b, sep) == Split(a, sep) + [b]
  {
    var s := a + [sep] + b;
    if |a| == 0 {
      assert s == [sep] + b && s[0] == sep && s[1..] == b;
      SplitPlain(b, sep);
    } else {
      assert s[0] == a[0] && s[1..] == a[1..] + [sep] + b;
      SplitBeforeLast(a[1..], b, sep);
      SplitCons(a, sep);
      SplitCons(s, sep);
      var rest := Split(a[1..], sep);
      assert Split(s[1..], sep) == rest + [b];
      if a[0] != sep {
        assert (rest + [b])[0] == rest[0];
        assert (rest + [b])[1..] == rest[1..] + [b];
      }
    }
  }

  /** One step of `Split`: the first character starts a new piece or joins the first one. */
  lemma {:induction false} SplitCons(s: string, sep: char)
    requires |s| > 0
    ensures Split(s, sep) == if s[0] == sep then [""] + Split(s[1..], sep)
      else [[s[0]] + Split(s[1..], sep)[0]] + Split(s[1..], sep)[1..]
  {
  }


  /** The first separator cuts off the first piece; the rest is split on its own. */
  lemma {:induction false} SplitAtFirst(s: string, sep: char)
    requires sep in s
    ensures Split(s, sep) == [s[..IndexOf(s, sep)]] + Split(s[IndexOf(s, sep) + 1..], sep)
  {
    SplitAt(s, IndexOf(s, sep), sep);
  }

  /** The first piece of a split is the text before the first separator. */
  lemma {:induction false} SplitHead(s: string, sep: char)
    ensures Split(s, sep)[0] == if sep in s then s[..IndexOf(s, sep)] else s
  {
    if sep in s {
      SplitAtFirst(s, sep);
    } else {
      SplitPlain(s, sep);
    }
  }

  /** `split` undoes `join` when no piece contains the separator. */
  lemma {:induction false} SplitJoin(xs: seq<string>, sep: char)
    requires |xs| >= 1
    requires forall i :: 0 <= i < |xs| ==> sep !in xs[i]
    ensures Split(Join(xs, sep), sep) == xs
  {
    if |xs| == 1 {
      SplitPlain(xs[0], sep);
    } else {
      SplitJoin(xs[1..], sep);
      SplitAfterField(xs[0], Join(xs[1..], sep), sep);
      assert [xs[0]] + xs[1..] == xs;
    }
  }

  /** Joining with one more empty piece appends one separator (`data.join('\n') + '\n'`). */
  lemma {:induction false} JoinTrailingEmpty(xs: seq<string>, sep: char)
    requires |xs| >= 1
    ensures Join(xs + [""], sep) == Join(xs, sep) + [sep]
  {
    if |xs| == 1 {
      assert (xs + [""])[1..] == [""];
    } else {
      assert (xs + [""])[1..] == xs[1..] + [""];
      JoinTrailingEmpty(xs[1..], sep);
    }
  }

  /** Each piece followed by the separator: the text of newline-terminated lines. */
  function Terminated(xs: seq<string>, sep: char): string
  {
    if |xs| == 0 then "" else xs[0] + [sep] + Terminated(xs[1..], sep)
  }

  lemma {:induction false} TerminatedOne(x: string, sep: char)
    ensures Terminated([x], sep) == x + [sep]
  {
    assert [x][1..] == [];
    assert x + [sep] + "" == x + [sep];
  }

  /** The text starts with the first piece and its separator, and ends with a separator. */
  lemma {:induction false} TerminatedShape(xs: seq<string>, sep: char)
    requires |xs| > 0
    ensures IsPrefix(xs[0] + [sep], Terminated(xs, sep))
    ensures Terminated(xs, sep)[|Terminated(xs, sep)| - 1] == sep
  {
    var head, rest := xs[0] + [sep], Terminated(xs[1..], sep);
    assert Terminated(xs, sep) == head + rest;
    assert (head + rest)[..|head|] == head;
    if |xs| > 1 {
      TerminatedShape(xs[1..], sep);
    }
  }

  lemma {:induction false} TerminatedConcat(a: seq<string>, b: seq<string>, sep: char)
    ensures Terminated(a + b, sep) == Terminated(a, sep) + Terminated(b, sep)
  {
    if |a| == 0 {
      assert a + b == b;
    } else {
      assert (a + b)[0] == a[0] && (a + b)[1..] == a[1..] + b;
      TerminatedConcat(a[1..], b, sep);
    }
  }

  /** Splitting terminated lines gives the lines back, plus the empty text after the last separator. */
  lemma {:induction false} SplitTerminated(xs: seq<string>, sep: char)
    requires forall i :: 0 <= i < |xs| ==> sep !in xs[i]
    ensures Split(Terminated(xs, sep), sep) == xs + [""]
  {
    if |xs| > 0 {
      SplitTerminated(xs[1..], sep);
      SplitAfterField(xs[0], Terminated(xs[1..], sep), sep);
      assert [xs[0]] + (xs[1..] + [""]) == xs + [""];
    }
  }

  /** No piece holds the separator. */
  predicate NoSeparator(xs: seq<string>, sep: char)
  {
    forall i :: 0 <= i < |xs| ==> sep !in xs[i]
  }

  lemma {:induction false} NoSeparatorConcat(a: seq<string>, b: seq<string>, sep: char)
    requires NoSeparator(a, sep) && NoSeparator(b, sep)
    ensures NoSeparator(a + b, sep)
  {
    forall i | 0 <= i < |a + b|
      ensures sep !in (a + b)[i]
    {
      if i >= |a| {
        assert (a + b)[i] == b[i - |a|];
      }
    }
  }

  /** Two blocks of lines, terminated one after the other, split back into both blocks. */
  lemma {:induction false} SplitTerminatedBlocks(a: seq<string>, b: seq<string>, sep: char)
    requires NoSeparator(a, sep) && NoSeparator(b, sep)
    ensures Split(Terminated(a + b, sep), sep) == a + b + [""]
  {
    NoSeparatorConcat(a, b, sep);
    SplitTerminated(a + b, sep);
  }

  /** `s.charAt(i)`: the one-character string at `i`, or the empty string past the end. */
  function CharAt(s: string, i: nat): (r: string)
    ensures |r| <= 1
    ensures i < |s| <==> |r| == 1
    ensures i < |s| ==> r[0] == s[i]
  {
    if i < |s| then [s[i]] else ""
  }

  /** `s.slice(n)` for a non-negative `n`. */
  function Slice(s: string, n: nat): (r: string)
    ensures n <= |s| ==> s == s[..n] + r
    ensures n >= |s| ==> r == ""
  {
    if n <= |s| then s[n..] else ""
  }

  /** `s.indexOf(c)`: the first position of `c`, or -1. */
  function IndexOf(s: string, c: char): (r: int)
    ensures -1 <= r < |s|
    ensures r == -1 <==> c !in s
    ensures r >= 0 ==> s[r] == c && forall j :: 0 <= j < r ==> s[j] != c
  {
    if |s| == 0 then -1
    else if s[0] == c then 0
    else
      var k := IndexOf(s[1..], c);
      if k == -1 then -1 else k + 1
  }

  predicate IsPrefix(p: string, s: string)
  {
    |p| <= |s| && s[..|p|] == p
  }

  predicate IsSuffix(p: string, s: string)
  {
    |p| <= |s| && s[|s| - |p|..] == p
  }

  /** A text begins with its first part and ends with its last. */
  lemma {:induction false} Ends(a: string, b: string, c: string)
    ensures IsPrefix(a, a + b + c) && IsSuffix(c, a + b + c)
  {
    var s := a + b + c;
    assert s[..|a|] == a;
    assert s[|s| - |c|..] == c;
  }

  /** ASCII lower-casing, the case folding a non-unicode `/i` regular expression applies to ASCII text. */
  function Lower(c: char): char
  {
    if 'A' <= c <= 'Z' then (c as int + 32) as char else c
  }

  /** Does `s` begin with `p`, ignoring ASCII case? `p` is given in lower case. */
  predicate StartsWithFolded(s: string, p: string)
  {
    |p| <= |s| && forall i :: 0 <= i < |p| ==> Lower(s[i]) == p[i]
  }

  /** Does `s` end with `p`, ignoring ASCII case? `p` is given in lower case. */
  predicate EndsWithFolded(s: string, p: string)
  {
    |p| <= |s| && forall i :: 0 <= i < |p| ==> Lower(s[|s| - |p| + i]) == p[i]
  }

  /** `p` folds to `q` character by character. */
  predicate FoldsTo(p: string, q: string)
  {
    |p| == |q| && forall i :: 0 <= i < |p| ==> Lower(p[i]) == q[i]
  }

  /** A text that begins with a word folding to `q` starts with `q`, whatever follows. */
  lemma {:induction false} FoldedPrefix(p: string, w: string, q: string)
    requires FoldsTo(p, q)
    ensures StartsWithFolded(p + w, q)
  {
    forall i | 0 <= i < |q|
      ensures Lower((p + w)[i]) == q[i]
    {
      assert (p + w)[i] == p[i];
    }
  }

  /** A text that ends with a word folding to `q` ends with `q`, whatever precedes. */
  lemma {:induction false} FoldedSuffix(w: string, p: string, q: string)
    requires FoldsTo(p, q)
    ensures EndsWithFolded(w + p, q)
  {
    var s := w + p;
    forall i | 0 <= i < |q|
      ensures Lower(s[|s| - |q| + i]) == q[i]
    {
      assert s[|s| - |q| + i] == p[i];
    }
  }

  /** The characters `String.prototype.trim` removes: white space and line terminators. */
  predicate IsTrimmed(c: char)
  {
    c == '\t' || c == '\n' || c == '\U{000B}' || c == '\U{000C}' || c == '\r' || c == ' '
    || c == '\U{00A0}' || c == '\U{1680}' || ('\U{2000}' <= c <= '\U{200A}')
    || c == '\U{2028}' || c == '\U{2029}' || c == '\U{202F}' || c == '\U{205F}' || c == '\U{3000}'
    || c == '\U{FEFF}'
  }

  /** `s.trim()` is the empty string, so the line is falsy after trimming. */
  predicate IsBlank(s: string)
  {
    forall i :: 0 <= i < |s| ==> IsTrimmed(s[i])
  }
}
