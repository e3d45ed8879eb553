/**
  The two token shapes `getNextOption` recognises (src/command-less.js:102 and :149), written as a
  hand-built position automaton instead of a regular-expression engine.

  Both patterns share the body `(G)*[a-z0-9.]+` (case-insensitive), where
  G = `[a-z0-9]+` `=*` `[.\w-]*` `[a-z0-9]+` `\.*`. The short pattern is `-` followed by a body, the
  long pattern `--` followed by a body. Each flag of `Marks` says whether some way of matching the text
  read so far can stop at that position of the body:
    lead  - inside G's first `[a-z0-9]+`
    eq    - inside G's `=*`
    mid   - inside G's `[.\w-]*`
    trail - inside G's last `[a-z0-9]+`
    dots  - inside G's trailing `\.*`
    tail  - inside the final `[a-z0-9.]+`
  and `start` marks the empty prefix. The whole body matches when `tail` is set after the last character.
*/
module TokenPattern {

  /** `[a-z0-9]` under the `i` flag. */
  predicate IsAlnum(c: char)
  {
    'a' <= c <= 'z' || 'A' <= c <= 'Z' || '0' <= c <= '9'
  }

  /** `[\.\w\-]` under the `i` flag. */
  predicate IsWordish(c: char)
  {
    IsAlnum(c) || c == '_' || c == '.' || c == '-'
  }

  /** `[a-z0-9\.]` under the `i` flag: the characters of the final run. */
  predicate IsTailChar(c: char)
  {
    IsAlnum(c) || c == '.'
  }

  datatype Marks = Marks(start: bool, lead: bool, eq: bool, mid: bool, trail: bool, dots: bool, tail: bool)

  const Initial := Marks(true, false, false, false, false, false, false)
  const Dead := Marks(false, false, false, false, false, false, false)

  /** Positions after which a new G or the final run may begin. */
  predicate AtBoundary(m: Marks)
  {
    m.start || m.trail || m.dots
  }

  /** Reading one character: every flag is set when `c` fits that position and a position that may precede it was set. */
  function Advance(m: Marks, c: char): (m': Marks)
    ensures !m'.start
    ensures m'.tail ==> IsTailChar(c)
  {
    Marks(
      start := false,
      lead := IsAlnum(c) && (AtBoundary(m) || m.lead),
      eq := c == '=' && (m.lead || m.eq),
      mid := IsWordish(c) && (m.lead || m.eq || m.mid),
      trail := IsAlnum(c) && (m.lead || m.eq || m.mid || m.trail),
      dots := c == '.' && (m.trail || m.dots),
      tail := IsTailChar(c) && (AtBoundary(m) || m.tail))
  }

  function Run(m: Marks, t: string): Marks
    decreases |t|
  {
    if |t| == 0 then m else Run(Advance(m, t[0]), t[1..])
  }

  /** The shared body `(G)*[a-z0-9.]+` matches all of `t`. */
  predicate Body(t: string)
  {
    Run(Initial, t).tail
  }

  /** `/^-(G)*[a-z0-9\.]+$/i.test(tok)` (src/command-less.js:102). */
  predicate ShortMatch(tok: string)
  {
    |tok| >= 1 && tok[0] == '-' && Body(tok[1..])
  }

  /** `/^--(G)*[a-z0-9\.]+$/i.test(tok)` (src/command-less.js:149). */
  predicate LongMatch(tok: string)
  {
    |tok| >= 2 && tok[..2] == "--" && Body(tok[2..])
  }

  lemma {:induction false} RunConcat(m: Marks, a: string, b: string)
    ensures Run(m, a + b) == Run(Run(m, a), b)
    decreases |a|
  {
    if |a| > 0 {
      assert (a + b)[0] == a[0] && (a + b)[1..] == a[1..] + b;
      RunConcat(Advance(m, a[0]), a[1..], b);
    } else {
      assert a + b == b;
    }
  }

  lemma {:induction false} DeadStaysDead(t: string)
    ensures Run(Dead, t) == Dead
  {
    if |t| > 0 {
      DeadStaysDead(t[1..]);
    }
  }

  lemma {:induction false} TailRunKeepsTail(m: Marks, t: string)
    requires AtBoundary(m) || m.tail
    requires |t| >= 1 && forall i :: 0 <= i < |t| ==> IsTailChar(t[i])
    ensures Run(m, t).tail
    decreases |t|
  {
    var m' := Advance(m, t[0]);
    assert m'.tail;
    if |t| > 1 {
      TailRunKeepsTail(m', t[1..]);
    }
  }

  /** Any non-empty run of letters, digits and dots is a body, so `-abc` and `--abc` are accepted. */
  lemma {:induction false} TailRunMatches(t: string)
    requires |t| >= 1 && forall i :: 0 <= i < |t| ==> IsTailChar(t[i])
    ensures Body(t)
  {
    TailRunKeepsTail(Initial, t);
  }

  /** A matching body is not empty, and it begins and ends with a letter, a digit or a dot. */
  lemma {:induction false} BodyShape(t: string)
    requires Body(t)
    ensures |t| >= 1
    ensures IsTailChar(t[0])
    ensures IsTailChar(t[|t| - 1])
  {
    if !IsTailChar(t[0]) {
      assert Advance(Initial, t[0]) == Dead;
      DeadStaysDead(t[1..]);
    }
    var n := |t| - 1;
    assert t == t[..n] + [t[n]];
    RunConcat(Initial, t[..n], [t[n]]);
  }

  /** Flags from which the final run cannot be reached by reading one more character. */
  predicate Pending(m: Marks)
  {
    !AtBoundary(m) && !m.tail
  }

  /** Every `=` of a matching body is followed by at least two more characters. */
  lemma {:induction false} EqualsNeedsTwoMore(t: string, i: nat)
    requires Body(t)
    requires i < |t| && t[i] == '='
    ensures i + 2 < |t|
  {
    var m := Run(Initial, t[..i]);
    assert t == t[..i] + [t[i]] + t[i + 1..];
    RunConcat(Initial, t[..i] + [t[i]], t[i + 1..]);
    RunConcat(Initial, t[..i], [t[i]]);
    var after := Advance(m, '=');
    assert Pending(after);
  }

  /** A token the short pattern accepts is `-` and at least one letter, digit or dot: never `--x`, never shorter than two characters. */
  lemma {:induction false} ShortShape(tok: string)
    requires ShortMatch(tok)
    ensures |tok| >= 2 && tok[0] == '-' && IsTailChar(tok[1])
    ensures !LongMatch(tok)
  {
    BodyShape(tok[1..]);
  }

  /** `-o=5` (one-character key, one-character value) matches neither pattern. */
  lemma {:induction false} ShortOneCharValueRejected(key: char, v: char)
    ensures !ShortMatch(['-', key, '=', v])
    ensures !LongMatch(['-', key, '=', v])
  {
    var tok := ['-', key, '=', v];
    if ShortMatch(tok) {
      EqualsNeedsTwoMore(tok[1..], 1);
    }
    if LongMatch(tok) {
      BodyShape(tok[2..]);
    }
  }

  /** `--name=5` (one-character value) matches neither pattern. */
  lemma {:induction false} LongOneCharValueRejected(name: string, v: char)
    ensures !LongMatch("--" + name + "=" + [v])
    ensures !ShortMatch("--" + name + "=" + [v])
  {
    var tok := "--" + name + "=" + [v];
    assert tok[..2] == "--";
    if LongMatch(tok) {
      assert tok[2..] == name + "=" + [v];
      EqualsNeedsTwoMore(tok[2..], |name|);
    }
    if ShortMatch(tok) {
      ShortShape(tok);
    }
  }

  /** Tokens of the formats listed at src/command-less.js:84-100 that the short pattern accepts. */
  lemma ShortExamples()
    ensures ShortMatch("-o") && ShortMatch("-abc") && ShortMatch("-o=val")
  {
  }

  lemma LongExamples()
    ensures LongMatch("--help") && LongMatch("--flag=55")
  {
  }

  lemma RejectedExamples()
    ensures !ShortMatch("-") && !ShortMatch("-_x") && !LongMatch("--") && !LongMatch("help")
  {
    assert "help"[..2][0] == 'h';
  }
}
