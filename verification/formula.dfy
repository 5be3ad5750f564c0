/** The rest of `process_formula`: a count of "1" after every element
    symbol that has none, element symbols replaced by element names, and
    the words joined with single spaces. */
module Formula {
  import opened Wrappers
  import opened Chars
  import opened FormulaScan

  // ----- Inserting the implicit count -----

  /** What `re.match('[a-zA-Z]+', t)` accepts: a token that begins with a
      letter. */
  predicate IsAlphaToken(t: string)
  {
    |t| > 0 && IsLetter(t[0])
  }

  /** Token `k` is a word after which "1" is inserted: it begins with a
      letter and is the last token or is followed by another token that
      begins with a letter. */
  predicate NeedsOne(ts: seq<string>, k: nat)
    requires k < |ts|
  {
    IsAlphaToken(ts[k]) && (k == |ts| - 1 || IsAlphaToken(ts[k + 1]))
  }

  /** Every word that begins with a letter is followed by one that does not. */
  predicate CountsExplicit(ts: seq<string>)
  {
    forall k :: 0 <= k < |ts| && IsAlphaToken(ts[k]) ==> k + 1 < |ts| && !IsAlphaToken(ts[k + 1])
  }

  /** The second loop of `process_formula`: every token is copied, and "1"
      is appended after each token that needs one. */
  function InsertOnes(ts: seq<string>): (r: seq<string>)
    ensures |r| >= |ts|
    ensures |ts| > 0 ==> |r| > 0 && r[0] == ts[0]
    ensures CountsExplicit(r)
  {
    if |ts| == 0 then []
    else [ts[0]] + (if NeedsOne(ts, 0) then ["1"] else []) + InsertOnes(ts[1..])
  }

  /** How many of the first `k` tokens need a "1". */
  function OnesBefore(ts: seq<string>, k: nat): (n: nat)
    requires k <= |ts|
    ensures n <= k
  {
    if k == 0 then 0 else OnesBefore(ts, k - 1) + (if NeedsOne(ts, k - 1) then 1 else 0)
  }

  lemma {:induction false} OnesBeforeShift(ts: seq<string>, k: nat)
    requires 0 < k <= |ts|
    ensures OnesBefore(ts, k) == (if NeedsOne(ts, 0) then 1 else 0) + OnesBefore(ts[1..], k - 1)
  {
    if k > 1 {
      OnesBeforeShift(ts, k - 1);
      assert NeedsOne(ts[1..], k - 2) == NeedsOne(ts, k - 1);
    }
  }

  /** Where everything lands: token `k` sits after the `k` tokens before it
      and the "1"s inserted after them; a "1" directly follows it exactly
      when it needs one; and nothing else is added. */
  lemma {:induction false} InsertOnesLayout(ts: seq<string>, k: nat)
    requires k < |ts|
    ensures |InsertOnes(ts)| == |ts| + OnesBefore(ts, |ts|)
    ensures k + OnesBefore(ts, k) < |InsertOnes(ts)|
    ensures InsertOnes(ts)[k + OnesBefore(ts, k)] == ts[k]
    ensures NeedsOne(ts, k) ==> InsertOnes(ts)[k + OnesBefore(ts, k) + 1] == "1"
  {
    var r := InsertOnes(ts);
    var head := [ts[0]] + (if NeedsOne(ts, 0) then ["1"] else []);
    var tail := ts[1..];
    assert r == head + InsertOnes(tail);
    if |tail| > 0 {
      InsertOnesLayout(tail, if k == 0 then 0 else k - 1);
      OnesBeforeShift(ts, |ts|);
    } else {
      assert |InsertOnes(tail)| == 0;
    }
    if k > 0 {
      OnesBeforeShift(ts, k);
      assert NeedsOne(tail, k - 1) == NeedsOne(ts, k);
      assert r[k + OnesBefore(ts, k)] == InsertOnes(tail)[k - 1 + OnesBefore(tail, k - 1)];
    }
  }

  /** A token list that already has every count explicit is left alone,
      and only such a list is. */
  lemma {:induction false} InsertOnesFixpoint(ts: seq<string>)
    ensures InsertOnes(ts) == ts <==> CountsExplicit(ts)
  {
    if CountsExplicit(ts) && |ts| > 0 {
      assert !NeedsOne(ts, 0);
      assert CountsExplicit(ts[1..]) by {
        forall k | 0 <= k < |ts[1..]| && IsAlphaToken(ts[1..][k])
          ensures k + 1 < |ts[1..]| && !IsAlphaToken(ts[1..][k + 1])
        {
          assert ts[1..][k] == ts[k + 1];
        }
      }
      InsertOnesFixpoint(ts[1..]);
      assert ts == [ts[0]] + ts[1..];
    }
  }

  /** Inserting the counts a second time changes nothing. */
  lemma InsertOnesIdempotent(ts: seq<string>)
    ensures InsertOnes(InsertOnes(ts)) == InsertOnes(ts)
  {
    InsertOnesFixpoint(InsertOnes(ts));
  }

  // ----- Element names -----

  /** The element table, in the order the source lists it. */
  const Abbreviations: seq<(string, string)> := [
    ("Ag", "Silver"), ("Al", "Aluminum"), ("As", "Arsenic"), ("Au", "Gold"),
    ("B", "Boron"), ("Ba", "Barium"), ("Bi", "Bismuth"), ("Br", "Bromine"),
    ("C", "Carbon"), ("Ca", "Calcium"), ("Cl", "Chlorine"), ("Co", "Cobalt"),
    ("Cu", "Copper"), ("F", "Fluorine"), ("Fe", "Iron"), ("H", "Hydrogen"),
    ("Hg", "Mercury"), ("I", "Iodine"), ("K", "Potassium"), ("Li", "Lithium"),
    ("Mg", "Magnesium"), ("N", "Nitrogen"), ("Na", "Sodium"), ("O", "Oxygen"),
    ("P", "Phosphorus"), ("Pt", "Platinum"), ("S", "Sulfur"), ("Se", "Selenium"),
    ("Si", "Silicon"), ("Tc", "Technetium"), ("Ti", "Titanium"), ("Zn", "Zinc")
  ]

  /** The name stored for symbol `t`, searching the table from entry `i`. */
  function NameFrom(t: string, i: nat): (r: Option<string>)
    requires i <= |Abbreviations|
    ensures r.None? <==> forall j :: i <= j < |Abbreviations| ==> Abbreviations[j].0 != t
    ensures r.Some? ==> exists j :: i <= j < |Abbreviations| && Abbreviations[j] == (t, r.value)
    decreases |Abbreviations| - i
  {
    if i == |Abbreviations| then None
    else if Abbreviations[i].0 == t then Some(Abbreviations[i].1)
    else NameFrom(t, i + 1)
  }

  function FullName(t: string): Option<string>
  {
    NameFrom(t, 0)
  }

  /** The symbol stored for name `n`, searching the table from entry `i`. */
  function SymbolFrom(n: string, i: nat): (r: Option<string>)
    requires i <= |Abbreviations|
    ensures r.None? <==> forall j :: i <= j < |Abbreviations| ==> Abbreviations[j].1 != n
    ensures r.Some? ==> exists j :: i <= j < |Abbreviations| && Abbreviations[j] == (r.value, n)
    decreases |Abbreviations| - i
  {
    if i == |Abbreviations| then None
    else if Abbreviations[i].1 == n then Some(Abbreviations[i].0)
    else SymbolFrom(n, i + 1)
  }

  /** The third loop of `process_formula` on one word: a symbol in the
      table becomes its name; every other word is kept. */
  function Expand(t: string): (r: string)
    ensures (exists j :: 0 <= j < |Abbreviations| && Abbreviations[j] == (t, r)) || (FullName(t).None? && r == t)
  {
    match FullName(t)
    case Some(n) => n
    case None => t
  }

  /** The partner of `Expand`: a name in the table becomes its symbol. */
  function Abbreviate(n: string): string
  {
    match SymbolFrom(n, 0)
    case Some(t) => t
    case None => n
  }

  function ExpandAll(ts: seq<string>): (r: seq<string>)
    ensures |r| == |ts|
    ensures forall k :: 0 <= k < |ts| ==> r[k] == Expand(ts[k])
  {
    seq(|ts|, k requires 0 <= k < |ts| => Expand(ts[k]))
  }

  predicate IsName(n: string)
  {
    exists j :: 0 <= j < |Abbreviations| && Abbreviations[j].1 == n
  }

  /** Facts about the table that the properties below rest on: symbols are
      one capital and at most one lower-case letter, names are words of at
      least four letters beginning with a capital, and no two entries share
      a symbol or a name. */
  lemma TableShape()
    ensures forall j :: 0 <= j < |Abbreviations| ==>
      IsSymbolToken(Abbreviations[j].0) && |Abbreviations[j].0| <= 2
    ensures forall j :: 0 <= j < |Abbreviations| ==>
      |Abbreviations[j].1| >= 4 && IsAlphaToken(Abbreviations[j].1) && ' ' !in Abbreviations[j].1
    ensures forall i, j :: 0 <= i < j < |Abbreviations| ==> Abbreviations[i].0 != Abbreviations[j].0
    ensures forall i, j :: 0 <= i < j < |Abbreviations| ==> Abbreviations[i].1 != Abbreviations[j].1
  {
    TableSymbols();
    TableNames();
    TableSymbolsDistinct();
    TableNamesDistinct();
  }

  lemma TableSymbols()
    ensures forall j :: 0 <= j < |Abbreviations| ==>
      IsSymbolToken(Abbreviations[j].0) && |Abbreviations[j].0| <= 2
  {
  }

  lemma TableNames()
    ensures forall j :: 0 <= j < |Abbreviations| ==>
      |Abbreviations[j].1| >= 4 && IsAlphaToken(Abbreviations[j].1) && ' ' !in Abbreviations[j].1
  {
  }

  lemma TableSymbolsDistinct()
    ensures forall i, j :: 0 <= i < j < |Abbreviations| ==> Abbreviations[i].0 != Abbreviations[j].0
  {
  }

  lemma TableNamesDistinct()
    ensures forall i, j :: 0 <= i < j < |Abbreviations| ==> Abbreviations[i].1 != Abbreviations[j].1
  {
  }

  /** A symbol's name is the one stored next to it. */
  lemma FullNameOfEntry(j: nat)
    requires j < |Abbreviations|
    ensures FullName(Abbreviations[j].0) == Some(Abbreviations[j].1)
    ensures Abbreviate(Abbreviations[j].1) == Abbreviations[j].0
  {
    TableShape();
  }

  /** Expansion never produces a symbol of the table, so a second pass
      changes nothing. */
  lemma ExpandIdempotent(t: string)
    ensures Expand(Expand(t)) == Expand(t)
  {
    TableShape();
    if FullName(t).Some? {
      var j :| 0 <= j < |Abbreviations| && Abbreviations[j] == (t, Expand(t));
      assert FullName(Expand(t)).None?;
    }
  }

  /** Abbreviating undoes expanding, for every word that is not itself a
      name in the table. */
  lemma AbbreviateExpand(t: string)
    requires !IsName(t)
    ensures Abbreviate(Expand(t)) == t
  {
    if FullName(t).Some? {
      var j :| 0 <= j < |Abbreviations| && Abbreviations[j] == (t, Expand(t));
      FullNameOfEntry(j);
    }
  }

  /** Counts, and every other word that does not begin with a letter, are
      never in the table and pass through unchanged. */
  lemma ExpandKeepsCounts(t: string)
    requires !IsAlphaToken(t)
    ensures FullName(t).None? && Expand(t) == t
  {
    TableSymbols();
  }

  /** Expanding keeps whether a word begins with a letter, so the counts
      made explicit before expansion stay explicit after it. */
  lemma ExpandKeepsAlpha(t: string)
    ensures IsAlphaToken(Expand(t)) <==> IsAlphaToken(t)
  {
    TableShape();
  }

  // ----- Joining and splitting on spaces -----

  /** The position of the first space in `s`, if any. */
  function FirstSpace(s: string): (r: Option<nat>)
    ensures r.None? <==> ' ' !in s
    ensures r.Some? ==> r.value < |s| && s[r.value] == ' ' && ' ' !in s[..r.value]
  {
    if |s| == 0 then None
    else if s[0] == ' ' then Some(0)
    else match FirstSpace(s[1..])
      case None => None
      case Some(i) => assert s[..i + 1] == [s[0]] + s[1..][..i]; Some(i + 1)
  }

  /** `s.split(' ')`: the pieces between single spaces, empty ones included. */
  function SplitSpaces(s: string): (r: seq<string>)
    ensures |r| > 0
    decreases |s|
  {
    match FirstSpace(s)
    case None => [s]
    case Some(i) => [s[..i]] + SplitSpaces(s[i + 1..])
  }

  predicate NoSpaces(ws: seq<string>)
  {
    forall k :: 0 <= k < |ws| ==> ' ' !in ws[k]
  }

  /** The number of spaces in `s`. */
  function SpaceCount(s: string): nat
  {
    if |s| == 0 then 0 else (if s[0] == ' ' then 1 else 0) + SpaceCount(s[1..])
  }

  lemma {:induction false} SpaceCountConcat(a: string, b: string)
    ensures SpaceCount(a + b) == SpaceCount(a) + SpaceCount(b)
    decreases |a|
  {
    if |a| == 0 {
      assert a + b == b;
    } else {
      assert (a + b)[1..] == a[1..] + b;
      SpaceCountConcat(a[1..], b);
    }
  }

  lemma {:induction false} NoSpaceCount(s: string)
    requires ' ' !in s
    ensures SpaceCount(s) == 0
  {
    if |s| > 0 {
      assert ' ' !in s[1..] by {
        forall k | 0 <= k < |s[1..]|
          ensures s[1..][k] != ' '
        {
          assert s[1..][k] == s[k + 1];
        }
      }
      NoSpaceCount(s[1..]);
    }
  }

  /** `' '.join(ws)`. Joining at least one space-free word puts exactly
      one space between consecutive words, so splitting on spaces gives the
      words back. */
  function JoinSpaces(ws: seq<string>): (r: string)
    ensures |ws| > 0 && NoSpaces(ws) ==> SplitSpaces(r) == ws
    ensures |ws| > 0 && NoSpaces(ws) ==> SpaceCount(r) == |ws| - 1
  {
    if |ws| == 0 then ""
    else if |ws| == 1 then
      SingleWord(ws[0]);
      assert ws == [ws[0]];
      ws[0]
    else
      var rest := JoinSpaces(ws[1..]);
      WordThenSpace(ws[0], rest);
      assert ws == [ws[0]] + ws[1..];
      assert NoSpaces(ws) ==> NoSpaces(ws[1..]) by {
        if NoSpaces(ws) {
          forall k | 0 <= k < |ws[1..]|
            ensures ' ' !in ws[1..][k]
          {
            assert ws[1..][k] == ws[k + 1];
          }
        }
      }
      ws[0] + " " + rest
  }

  /** A space-free word splits into itself and has no space. */
  lemma SingleWord(w: string)
    ensures ' ' !in w ==> SplitSpaces(w) == [w] && SpaceCount(w) == 0
  {
    if ' ' !in w {
      NoSpaceCount(w);
    }
  }

  /** A space-free word and a space in front of `rest`: splitting peels
      the word off, and the text has one space more than `rest`. */
  lemma WordThenSpace(w: string, rest: string)
    ensures ' ' !in w ==> SplitSpaces(w + " " + rest) == [w] + SplitSpaces(rest)
    ensures ' ' !in w ==> SpaceCount(w + " " + rest) == SpaceCount(rest) + 1
  {
    if ' ' !in w {
      var s := w + " " + rest;
      assert s[|w|] == ' ';
      assert s[..|w|] == w;
      assert FirstSpace(s) == Some(|w|);
      assert s[|w| + 1..] == rest;
      NoSpaceCount(w);
      SpaceCountConcat(w, " ");
      SpaceCountConcat(w + " ", rest);
      assert SpaceCount(" ") == 1 by {
        assert " "[1..] == "";
      }
    }
  }

  // ----- The whole pass -----

  /** The words `process_formula` joins: the scanned tokens with counts
      made explicit and symbols replaced by names. */
  function FormulaWords(s: string): seq<string>
  {
    ExpandAll(InsertOnes(Tokenize(s)))
  }

  /** `process_formula`: empty when the formula has no tokens, and
      otherwise exactly the words, separated by one space each, with every
      word that begins with a letter followed by a count. */
  function ProcessFormula(s: string): (r: string)
    ensures |Tokenize(s)| == 0 ==> r == ""
    ensures |Tokenize(s)| > 0 ==> SplitSpaces(r) == FormulaWords(s)
    ensures |Tokenize(s)| > 0 ==> SpaceCount(r) == |FormulaWords(s)| - 1
    ensures |Tokenize(s)| > 0 ==> CountsExplicit(SplitSpaces(r))
  {
    FormulaWordsHaveNoSpaces(s);
    ProcessFormulaCountsExplicit(s);
    JoinSpaces(FormulaWords(s))
  }

  /** No word of the output has a space in it. */
  lemma FormulaWordsHaveNoSpaces(s: string)
    ensures NoSpaces(FormulaWords(s))
  {
    var ts := Tokenize(s);
    var r := InsertOnes(ts);
    var ws := FormulaWords(s);
    forall k | 0 <= k < |ws|
      ensures ' ' !in ws[k]
    {
      TokenOrOne(ts, k);
      if r[k] != "1" {
        var m :| 0 <= m < |ts| && ts[m] == r[k];
        TokenShape(s, m);
      }
      ExpandedWordHasNoSpace(r[k]);
    }
  }

  /** A token or an inserted "1" has no space, and neither has its expansion. */
  lemma ExpandedWordHasNoSpace(t: string)
    requires t == "1" || IsSymbolToken(t) || IsCountToken(t)
    ensures ' ' !in Expand(t)
  {
    TableNames();
    if FullName(t).None? {
      assert forall q :: 0 <= q < |t| ==> t[q] != ' ';
    }
  }

  /** Every word after "1"s are inserted is one of the tokens or "1". */
  lemma {:induction false} TokenOrOne(ts: seq<string>, k: nat)
    requires k < |InsertOnes(ts)|
    ensures InsertOnes(ts)[k] == "1" || exists m :: 0 <= m < |ts| && ts[m] == InsertOnes(ts)[k]
  {
    var head := [ts[0]] + (if NeedsOne(ts, 0) then ["1"] else []);
    if k >= |head| {
      TokenOrOne(ts[1..], k - |head|);
      if InsertOnes(ts[1..])[k - |head|] != "1" {
        var m :| 0 <= m < |ts[1..]| && ts[1..][m] == InsertOnes(ts[1..])[k - |head|];
        assert ts[m + 1] == InsertOnes(ts)[k];
      }
    } else if k == 0 {
      assert ts[0] == InsertOnes(ts)[0];
    }
  }

  /** Every word of the output that begins with a letter (an element name or
      an unknown symbol) is followed by a count. */
  lemma ProcessFormulaCountsExplicit(s: string)
    ensures CountsExplicit(FormulaWords(s))
  {
    var r := InsertOnes(Tokenize(s));
    var ws := FormulaWords(s);
    forall k | 0 <= k < |ws| && IsAlphaToken(ws[k])
      ensures k + 1 < |ws| && !IsAlphaToken(ws[k + 1])
    {
      ExpandKeepsAlpha(r[k]);
      if k + 1 < |r| {
        ExpandKeepsAlpha(r[k + 1]);
      }
    }
  }

  // ----- Worked examples -----

  /** Water: the symbols become names and the missing count of oxygen is
      written out. */
  lemma WaterExample()
    ensures Tokenize("H2O") == ["H", "2", "O"]
    ensures FormulaWords("H2O") == ["Hydrogen", "2", "Oxygen", "1"]
    ensures ProcessFormula("H2O") == "Hydrogen 2 Oxygen 1"
  {
    WaterTokens();
    WaterWords();
    WaterJoin();
  }

  lemma WaterTokens()
    ensures Tokenize("H2O") == ["H", "2", "O"]
  {
    var s := "H2O";
    assert ScanPrefix(s, 1) == Scan([""], "H");
    assert ScanPrefix(s, 2) == Scan(["", "H"], "2");
    assert ScanPrefix(s, 3) == Scan(["", "H", "2"], "O");
  }

  lemma WaterWords()
    requires Tokenize("H2O") == ["H", "2", "O"]
    ensures FormulaWords("H2O") == ["Hydrogen", "2", "Oxygen", "1"]
  {
    WaterOnes();
    WaterNames();
  }

  lemma WaterOnes()
    ensures InsertOnes(["H", "2", "O"]) == ["H", "2", "O", "1"]
  {
    var ts := ["H", "2", "O"];
    assert ts[1..] == ["2", "O"] && ts[1..][1..] == ["O"];
    assert InsertOnes(["O"]) == ["O", "1"];
    assert InsertOnes(ts[1..]) == ["2", "O", "1"];
  }

  lemma WaterNames()
    ensures ExpandAll(["H", "2", "O", "1"]) == ["Hydrogen", "2", "Oxygen", "1"]
  {
    ExpandHydrogenOxygen();
    ExpandDigits();
  }

  lemma ExpandDigits()
    ensures Expand("2") == "2" && Expand("1") == "1"
  {
    ExpandKeepsCounts("2");
    ExpandKeepsCounts("1");
  }

  lemma ExpandHydrogenOxygen()
    ensures Expand("H") == "Hydrogen" && Expand("O") == "Oxygen"
  {
    HydrogenOxygen();
    FullNameOfEntry(15);
    FullNameOfEntry(23);
  }

  lemma HydrogenOxygen()
    ensures Abbreviations[15] == ("H", "Hydrogen") && Abbreviations[23] == ("O", "Oxygen")
  {
  }

  lemma WaterJoin()
    ensures JoinSpaces(["Hydrogen", "2", "Oxygen", "1"]) == "Hydrogen 2 Oxygen 1"
  {
    assert "Hydrogen" + " " + "2 Oxygen 1" == "Hydrogen 2 Oxygen 1";
    assert ["Hydrogen", "2", "Oxygen", "1"] == ["Hydrogen"] + ["2", "Oxygen", "1"];
    WaterJoinTail();
    JoinCons("Hydrogen", ["2", "Oxygen", "1"]);
  }

  lemma WaterJoinTail()
    ensures JoinSpaces(["2", "Oxygen", "1"]) == "2 Oxygen 1"
  {
    assert "2" + " " + "Oxygen 1" == "2 Oxygen 1";
    assert ["2", "Oxygen", "1"] == ["2"] + ["Oxygen", "1"];
    WaterJoinLast();
    JoinCons("2", ["Oxygen", "1"]);
  }

  lemma WaterJoinLast()
    ensures JoinSpaces(["Oxygen", "1"]) == "Oxygen 1"
  {
    var ws := ["Oxygen", "1"];
    assert ws[1..] == ["1"];
  }

  /** Joining a word in front of at least one more word. */
  lemma JoinCons(w: string, rest: seq<string>)
    requires |rest| > 0
    ensures JoinSpaces([w] + rest) == w + " " + JoinSpaces(rest)
  {
    assert ([w] + rest)[1..] == rest;
  }
}
