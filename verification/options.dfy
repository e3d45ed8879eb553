/**
  The option table handed to `parse` and the three lookup objects it builds from it
  (src/command-less.js:209-226).
*/
module Options {

  /**
    The JavaScript values an option can hold: parsed strings, toggled booleans and declared defaults. A
    number is an integer; JavaScript holds integers exactly only up to 2^53 in magnitude.
  */
  datatype Value = Undefined | Null | Bool(b: bool) | Num(n: int) | Str(s: string)

  /** JavaScript truthiness, the test behind `!default`. */
  predicate Truthy(v: Value)
  {
    match v
    case Undefined => false
    case Null => false
    case Bool(b) => b
    case Num(n) => n != 0
    case Str(s) => s != ""
  }

  /**
    One declared option: the property name `long` of the options object and its array
    `[ short, description, type, default ]`.
  */
  datatype OptionSpec = OptionSpec(long: string, short: string, description: string, kind: string, default: Value)

  /** The options object, in `Object.keys` order. */
  type Table = seq<OptionSpec>

  /** An object literal cannot declare the same property twice. */
  predicate DistinctLongs(t: Table)
  {
    forall i, j :: 0 <= i < j < |t| ==> t[i].long != t[j].long
  }

  function Names(t: Table): set<string>
  {
    set i | 0 <= i < |t| :: t[i].long
  }

  /** `this.longs`: long name to short name. */
  function Longs(t: Table): map<string, string>
  {
    if |t| == 0 then map[] else Longs(t[..|t| - 1])[t[|t| - 1].long := t[|t| - 1].short]
  }

  /**
    `this.shorts`: short name to long name. Options sharing a short name overwrite each other, so the
    declaration that comes last wins.
  */
  function Shorts(t: Table): map<string, string>
  {
    if |t| == 0 then map[] else Shorts(t[..|t| - 1])[t[|t| - 1].short := t[|t| - 1].long]
  }

  /** `this.parsing`: long name to the declaration itself. */
  function Entries(t: Table): map<string, OptionSpec>
  {
    if |t| == 0 then map[] else Entries(t[..|t| - 1])[t[|t| - 1].long := t[|t| - 1]]
  }

  lemma {:induction false} NamesOfPrefix(t: Table)
    requires |t| > 0
    ensures Names(t) == Names(t[..|t| - 1]) + {t[|t| - 1].long}
  {
    var init := t[..|t| - 1];
    forall x | x in Names(t) ensures x in Names(init) + {t[|t| - 1].long} {
      var i :| 0 <= i < |t| && t[i].long == x;
      if i < |t| - 1 { assert init[i] == t[i]; }
    }
    forall x | x in Names(init) ensures x in Names(t) {
      var i :| 0 <= i < |init| && init[i].long == x;
      assert t[i] == init[i];
    }
  }

  /** `this.longs` has exactly the declared names, each mapped to its own short name. */
  lemma {:induction false} LongsOfTable(t: Table)
    requires DistinctLongs(t)
    ensures Longs(t).Keys == Names(t)
    ensures forall i :: 0 <= i < |t| ==> Longs(t)[t[i].long] == t[i].short
  {
    if |t| > 0 {
      var n := |t| - 1;
      var init := t[..n];
      LongsOfTable(init);
      NamesOfPrefix(t);
      forall i | 0 <= i < |t| ensures Longs(t)[t[i].long] == t[i].short {
        if i < n { assert init[i] == t[i]; }
      }
    }
  }

  /** `this.longs` has an entry for every declared name and no other. */
  lemma {:induction false} LongsKeys(t: Table)
    ensures Longs(t).Keys == Names(t)
  {
    if |t| > 0 {
      LongsKeys(t[..|t| - 1]);
      NamesOfPrefix(t);
    }
  }

  /** `this.parsing` has exactly the declared names, each mapped to its own declaration. */
  lemma {:induction false} EntriesOfTable(t: Table)
    requires DistinctLongs(t)
    ensures Entries(t).Keys == Names(t)
    ensures forall i :: 0 <= i < |t| ==> Entries(t)[t[i].long] == t[i]
  {
    if |t| > 0 {
      var n := |t| - 1;
      var init := t[..n];
      EntriesOfTable(init);
      NamesOfPrefix(t);
      forall i | 0 <= i < |t| ensures Entries(t)[t[i].long] == t[i] {
        if i < n { assert init[i] == t[i]; }
      }
    }
  }

  /** Option `j` is the last declaration using short name `s`. */
  predicate IsLastOwner(t: Table, s: string, j: int)
  {
    0 <= j < |t| && t[j].short == s && forall k :: j < k < |t| ==> t[k].short != s
  }

  /**
    `this.shorts` holds exactly the declared short names, and maps each to the long name of the LAST
    option declaring it.
  */
  lemma {:induction false} ShortsOfTable(t: Table, s: string)
    ensures s in Shorts(t) <==> exists i :: 0 <= i < |t| && t[i].short == s
    ensures s in Shorts(t) ==> exists j :: IsLastOwner(t, s, j) && Shorts(t)[s] == t[j].long
  {
    if |t| > 0 {
      var n := |t| - 1;
      var init := t[..n];
      ShortsOfTable(init, s);
      assert forall i :: 0 <= i < n ==> init[i] == t[i];
      if t[n].short == s {
        assert IsLastOwner(t, s, n);
      } else if s in Shorts(t) {
        var i :| 0 <= i < n && init[i].short == s;
        assert t[i].short == s;
        var j :| IsLastOwner(init, s, j) && Shorts(init)[s] == init[j].long;
        assert IsLastOwner(t, s, j);
      }
    }
  }

  /** Every value of `this.shorts` is a declared long name. */
  lemma {:induction false} ShortsValuesDeclared(t: Table, s: string)
    requires s in Shorts(t)
    ensures Shorts(t)[s] in Names(t)
  {
    ShortsOfTable(t, s);
    var j :| IsLastOwner(t, s, j) && Shorts(t)[s] == t[j].long;
  }

  /** The declaration that owns short name `s` after `this.shorts` is built. */
  lemma ShortsExample()
    ensures Shorts([OptionSpec("first", "x", "", "string", Undefined), OptionSpec("second", "x", "", "int", Undefined)])["x"] == "second"
  {
  }
}
