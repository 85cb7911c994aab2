/** The list and multimap grammars on concrete inputs, with two sample element
    parsers: the string parser (every token converts to itself) and a parser
    that accepts only tokens made of decimal digits. */
module GrammarExamples {
  import opened Wrappers
  import opened JavaStrings
  import opened ConfigProperty
  import opened ListConfigProperty
  import opened MultimapConfigProperty

  /** The string parser: the token itself. */
  function StringParser(): ValueParser<string>
  {
    ValueParser(Str, (t: string) => Success(t))
  }

  predicate IsDigits(t: string)
  {
    forall i :: 0 <= i < |t| ==> '0' <= t[i] <= '9'
  }

  /** A numeric-looking parser that rejects any token with a non-digit. */
  function DigitsParser(): ValueParser<string>
  {
    ValueParser(Int, (t: string) => if IsDigits(t) then Success(t) else Failure(ConversionError(t)))
  }

  /** `split(",")` of a comma-free join of three pieces. */
  lemma SplitThree(a: string, b: string, c: string, s: string)
    requires ',' !in a && ',' !in b && ',' !in c && c != ""
    requires s == a + "," + b + "," + c
    ensures Split(s, ',') == [a, b, c]
  {
    var ts := [a, b, c];
    assert ts[1..] == [b, c] && ts[1..][1..] == [c];
    assert Join([c], ',') == c;
    assert Join([b, c], ',') == b + [','] + c;
    assert Join(ts, ',') == a + [','] + (b + [','] + c);
    assert s == a + [','] + (b + [','] + c);
    SplitJoin(ts, ',');
  }

  /** `split(",")` of a comma-free join of two pieces. */
  lemma SplitTwo(a: string, b: string, s: string)
    requires ',' !in a && ',' !in b && b != ""
    requires s == a + "," + b
    ensures Split(s, ',') == [a, b]
  {
    var ts := [a, b];
    assert ts[1..] == [b];
    assert Join(ts, ',') == a + [','] + b;
    SplitJoin(ts, ',');
  }

  /** `split(",")` of two comma-free pieces followed by two commas: the
      trailing empty pieces are dropped. */
  lemma SplitTwoTrailing(a: string, b: string, s: string)
    requires ',' !in a && ',' !in b && b != ""
    requires s == a + "," + b + ",,"
    ensures Split(s, ',') == [a, b]
  {
    var ab := a + "," + b;
    assert s == (ab + [',']) + [','];
    SplitIgnoresTrailingDelimiter(ab + [','], ',');
    SplitIgnoresTrailingDelimiter(ab, ',');
    SplitTwo(a, b, ab);
  }

  // ---------------------------------------------------------------------
  // Lists

  /** Splitting and converting a list drops only trailing empty tokens. */
  lemma ListTrailingEmptyExample()
    ensures ParseList(StringParser(), "a,b,,") == Success(["a", "b"])
  {
    SplitTwoTrailing("a", "b", "a,b,,");
    ConvertTokens(["a", "b"]);
  }

  /** Order and duplicates are kept. */
  lemma ListDuplicatesExample()
    ensures ParseList(StringParser(), "b,a,b") == Success(["b", "a", "b"])
  {
    SplitThree("b", "a", "b", "b,a,b");
    ConvertTokens(["b", "a", "b"]);
  }

  /** The string parser converts every token list to itself. */
  lemma {:induction false} ConvertTokens(ts: seq<string>)
    ensures ParseTokens(StringParser().apply, ts) == Success(ts)
  {
    if ts != [] {
      ConvertTokens(ts[1..]);
      assert ts == [ts[0]] + ts[1..];
    }
  }

  /** One token the parser rejects fails the whole list, with that token's
      error. */
  lemma ListFailureExample()
    ensures ParseList(DigitsParser(), "1,x,2") == Failure(ConversionError("x"))
  {
    SplitThree("1", "x", "2", "1,x,2");
    ListFailureTokens();
  }

  lemma ListFailureTokens()
    ensures ParseTokens(DigitsParser().apply, ["1", "x", "2"]) == Failure(ConversionError("x"))
  {
    var apply := DigitsParser().apply;
    var ts := ["1", "x", "2"];
    assert !IsDigits("x") by { assert !('0' <= "x"[0] <= '9'); }
    assert IsDigits("1");
    assert apply("1") == Success("1");
    assert apply("x") == Failure(ConversionError("x"));
    assert ts[1..] == ["x", "2"];
    assert ts[1..][0] == "x";
    assert ParseTokens(apply, ts[1..]) == Failure(ConversionError("x"));
  }

  // ---------------------------------------------------------------------
  // Multimaps

  /** Carry-forward: unkeyed tokens join the most recent key. */
  lemma CarryForwardExample()
    ensures MultimapGrammar(StringParser(), "a=1,2,3") == Success(map["a" := ["1", "2", "3"]])
  {
    SplitThree("a=1", "2", "3", "a=1,2,3");
    CarryForwardFold();
  }

  lemma CarryForwardFold()
    ensures Fold(StringParser().apply, ["a=1", "2", "3"], None, map[]) == Success(map["a" := ["1", "2", "3"]])
  {
    SplitFirstUnique("a=1", '=', "a", "1");
    assert TokenKey("2") == None && TokenValue("2") == "2";
    assert TokenKey("3") == None && TokenValue("3") == "3";
    var apply := StringParser().apply;
    var ts := ["a=1", "2", "3"];
    assert ts[1..] == ["2", "3"] && ts[1..][1..] == ["3"] && ts[1..][1..][1..] == [];
    var m0: Multimap<string> := map[];
    var m1 := Append(m0, "a", "1");
    var m2 := Append(m1, "a", "2");
    var m3 := Append(m2, "a", "3");
    assert Fold(apply, ["3"], Some("a"), m2) == Success(m3);
    assert Fold(apply, ["2", "3"], Some("a"), m1) == Success(m3);
    assert Fold(apply, ts, None, m0) == Success(m3);
    assert ["1"] + ["2"] == ["1", "2"];
    assert ["1", "2"] + ["3"] == ["1", "2", "3"];
    assert m1 == map["a" := ["1"]];
    assert m2 == map["a" := ["1", "2"]];
    assert m3 == map["a" := ["1", "2", "3"]];
  }


  /** Re-keying appends to the existing list of that key. */
  lemma RekeyExample()
    ensures MultimapGrammar(StringParser(), "a=1,b=2,a=3") == Success(map["a" := ["1", "3"], "b" := ["2"]])
  {
    SplitThree("a=1", "b=2", "a=3", "a=1,b=2,a=3");
    RekeyFold();
  }

  lemma RekeyFold()
    ensures Fold(StringParser().apply, ["a=1", "b=2", "a=3"], None, map[]) == Success(map["a" := ["1", "3"], "b" := ["2"]])
  {
    var apply := StringParser().apply;
    var m0: Multimap<string> := map[];
    var m1 := map["a" := ["1"]];
    var m2 := map["a" := ["1"], "b" := ["2"]];
    var m3 := map["a" := ["1", "3"], "b" := ["2"]];
    RekeyLastStep(apply, m2, m3);
    RekeyMiddleStep(apply, m1, m2, m3);
    SplitFirstUnique("a=1", '=', "a", "1");
    var ts := ["a=1", "b=2", "a=3"];
    assert ts[1..] == ["b=2", "a=3"];
    assert Append(m0, "a", "1") == m1;
  }

  lemma RekeyLastStep(apply: string -> Result<string, ConversionError>, m2: Multimap<string>, m3: Multimap<string>)
    requires forall t :: apply(t) == Success(t)
    requires m2 == map["a" := ["1"], "b" := ["2"]] && m3 == map["a" := ["1", "3"], "b" := ["2"]]
    ensures Fold(apply, ["a=3"], Some("b"), m2) == Success(m3)
  {
    SplitFirstUnique("a=3", '=', "a", "3");
    assert ["a=3"][1..] == [];
    assert ["1"] + ["3"] == ["1", "3"];
    assert Append(m2, "a", "3") == m3;
  }

  lemma RekeyMiddleStep(apply: string -> Result<string, ConversionError>, m1: Multimap<string>, m2: Multimap<string>, m3: Multimap<string>)
    requires forall t :: apply(t) == Success(t)
    requires m1 == map["a" := ["1"]] && m2 == map["a" := ["1"], "b" := ["2"]]
    requires Fold(apply, ["a=3"], Some("b"), m2) == Success(m3)
    ensures Fold(apply, ["b=2", "a=3"], Some("a"), m1) == Success(m3)
  {
    SplitFirstUnique("b=2", '=', "b", "2");
    assert ["b=2", "a=3"][1..] == ["a=3"];
    assert Append(m1, "b", "2") == m2;
  }

  /** A leading unkeyed token is dropped without being converted, so even a
      token the parser rejects does not fail the parse. */
  lemma LeadingTokenExample()
    ensures MultimapGrammar(DigitsParser(), "x,a=2") == Success(map["a" := ["2"]])
  {
    SplitTwo("x", "a=2", "x,a=2");
    LeadingTokenFold();
  }

  lemma LeadingTokenFold()
    ensures Fold(DigitsParser().apply, ["x", "a=2"], None, map[]) == Success(map["a" := ["2"]])
  {
    assert TokenKey("x") == None;
    SplitFirstUnique("a=2", '=', "a", "2");
    assert IsDigits("2");
    var apply := DigitsParser().apply;
    var ts := ["x", "a=2"];
    assert ts[1..] == ["a=2"] && ts[1..][1..] == [];
    var m0: Multimap<string> := map[];
    assert Fold(apply, ["a=2"], None, m0) == Success(Append(m0, "a", "2"));
    assert Fold(apply, ts, None, m0) == Success(Append(m0, "a", "2"));
  }


  /** Only the first `=` of a token separates key from value. */
  lemma FirstEqualsExample()
    ensures MultimapGrammar(StringParser(), "k=x=y") == Success(map["k" := ["x=y"]])
  {
    assert Split("k=x=y", ',') == ["k=x=y"];
    FirstEqualsFold();
  }

  lemma FirstEqualsFold()
    ensures Fold(StringParser().apply, ["k=x=y"], None, map[]) == Success(map["k" := ["x=y"]])
  {
    SplitFirstUnique("k=x=y", '=', "k", "x=y");
    assert ["k=x=y"][1..] == [];
    var m0: Multimap<string> := map[];
    assert Fold(StringParser().apply, ["k=x=y"], None, m0) == Success(Append(m0, "k", "x=y"));
  }

}
