/** A configuration property exposed as an ordered list: the raw string is
    split on `,` (Java `split` semantics) and every token is converted by
    the element parser, in order; one failing token fails the whole parse. */
module ListConfigProperty {
  import opened Wrappers
  import opened JavaStrings
  import opened ConfigProperty

  /** The stream `map(valueParser).collect(toList())`: the tokens converted
      one by one, in order; the first token that fails aborts with its error
      and no partial list is returned. What each element is, and which error
      is reported, is stated by ParseTokensElementwise and
      ParseTokensFirstFailure. */
  function ParseTokens<T>(apply: string -> Result<T, ConversionError>, ts: seq<string>): (r: Result<seq<T>, ConversionError>)
    ensures r.Success? ==> |r.value| == |ts|
  {
    if ts == [] then Success([])
    else
      match apply(ts[0])
      case Failure(e) => Failure(e)
      case Success(x) =>
        match ParseTokens(apply, ts[1..])
        case Failure(e) => Failure(e)
        case Success(xs) => Success([x] + xs)
  }

  /** The conversion succeeds exactly when every token converts, and then
      element i is the conversion of token i. */
  lemma {:induction false} ParseTokensElementwise<T>(apply: string -> Result<T, ConversionError>, ts: seq<string>)
    ensures ParseTokens(apply, ts).Success? <==> forall i :: 0 <= i < |ts| ==> apply(ts[i]).Success?
    ensures ParseTokens(apply, ts).Success? ==>
      forall i :: 0 <= i < |ts| ==> apply(ts[i]) == Success(ParseTokens(apply, ts).value[i])
  {
    if ts != [] {
      ParseTokensElementwise(apply, ts[1..]);
      assert forall j :: 1 <= j < |ts| ==> ts[j] == ts[1..][j - 1];
    }
  }

  /** A failed conversion reports the error of a token that fails, and every
      token before that one converts: it is the first failing token. */
  lemma {:induction false} ParseTokensFirstFailure<T>(apply: string -> Result<T, ConversionError>, ts: seq<string>)
    requires ParseTokens(apply, ts).Failure?
    ensures exists i ::
      && 0 <= i < |ts|
      && apply(ts[i]) == Failure(ParseTokens(apply, ts).error)
      && (forall j :: 0 <= j < i ==> apply(ts[j]).Success?)
  {
    var e := ParseTokens(apply, ts).error;
    if apply(ts[0]).Failure? {
      assert apply(ts[0]) == Failure(e);
    } else {
      ParseTokensFirstFailure(apply, ts[1..]);
      var k :| 0 <= k < |ts[1..]| && apply(ts[1..][k]) == Failure(e) &&
        forall j :: 0 <= j < k ==> apply(ts[1..][j]).Success?;
      assert apply(ts[k + 1]) == Failure(e);
      assert forall j :: 1 <= j < k + 1 ==> ts[j] == ts[1..][j - 1];
    }
  }

  /** The list grammar (`toListPropertyParser`): split on `,`, then convert
      each token. */
  function ParseList<T>(p: ValueParser<T>, s: string): (r: Result<seq<T>, ConversionError>)
    ensures r.Success? ==> |r.value| == |Split(s, ',')|
  {
    ParseTokens(p.apply, Split(s, ','))
  }

  /** Converting a concatenation of token lists converts each part and
      concatenates the results: order and duplicates are kept, nothing is
      filtered. */
  lemma {:induction false} ParseTokensAppend<T>(apply: string -> Result<T, ConversionError>, a: seq<string>, b: seq<string>)
    ensures ParseTokens(apply, a).Success? && ParseTokens(apply, b).Success? ==>
      ParseTokens(apply, a + b) == Success(ParseTokens(apply, a).value + ParseTokens(apply, b).value)
    ensures ParseTokens(apply, a).Failure? ==> ParseTokens(apply, a + b) == ParseTokens(apply, a)
    ensures ParseTokens(apply, a).Success? && ParseTokens(apply, b).Failure? ==>
      ParseTokens(apply, a + b) == ParseTokens(apply, b)
  {
    if a == [] {
      assert a + b == b;
      if ParseTokens(apply, b).Success? {
        assert [] + ParseTokens(apply, b).value == ParseTokens(apply, b).value;
      }
    } else {
      var ab := a + b;
      assert ab[0] == a[0] && ab[1..] == a[1..] + b;
      ParseTokensAppend(apply, a[1..], b);
      if apply(a[0]).Success? && ParseTokens(apply, a[1..]).Success? && ParseTokens(apply, b).Success? {
        var x, va, vb := apply(a[0]).value, ParseTokens(apply, a[1..]).value, ParseTokens(apply, b).value;
        assert [x] + (va + vb) == ([x] + va) + vb;
      }
    }
  }

  /** On success the list has one element per `split(",")` token, and element
      i is the conversion of token i; the parse succeeds exactly when every
      token converts. */
  lemma ParseListElementwise<T>(p: ValueParser<T>, s: string)
    ensures var ts := Split(s, ',');
      && (ParseList(p, s).Success? <==> forall i :: 0 <= i < |ts| ==> p.apply(ts[i]).Success?)
      && (ParseList(p, s).Success? ==>
            |ParseList(p, s).value| == |ts| &&
            forall i :: 0 <= i < |ts| ==> p.apply(ts[i]) == Success(ParseList(p, s).value[i]))
  {
    ParseTokensElementwise(p.apply, Split(s, ','));
  }

  /** If some token fails to convert, the parse reports the error of the
      first failing token and yields no list at all. */
  lemma ParseListFailsAtFirstBadToken<T>(p: ValueParser<T>, s: string, i: nat)
    requires i < |Split(s, ',')| && p.apply(Split(s, ',')[i]).Failure?
    requires forall j :: 0 <= j < i ==> p.apply(Split(s, ',')[j]).Success?
    ensures ParseList(p, s) == Failure(p.apply(Split(s, ',')[i]).error)
  {
    var ts := Split(s, ',');
    var r := ParseList(p, s);
    ParseTokensElementwise(p.apply, ts);
    assert r.Failure?;
    ParseTokensFirstFailure(p.apply, ts);
    var k :| 0 <= k < |ts| && p.apply(ts[k]) == Failure(r.error) &&
      forall j :: 0 <= j < k ==> p.apply(ts[j]).Success?;
    assert k == i;
  }

  /** An input without `,` (the empty string included) yields exactly one
      element: the conversion of the whole input. */
  lemma ParseListSingleToken<T>(p: ValueParser<T>, s: string)
    requires ',' !in s
    ensures p.apply(s).Success? ==> ParseList(p, s) == Success([p.apply(s).value])
    ensures p.apply(s).Failure? ==> ParseList(p, s) == Failure(p.apply(s).error)
  {
    assert Split(s, ',') == [s];
    assert [s][0] == s;
    assert ParseTokens(p.apply, [s][1..]) == Success([]) by { assert [s][1..] == []; }
    assert ParseList(p, s) == ParseTokens(p.apply, [s]);
    if p.apply(s).Success? {
      assert ParseTokens(p.apply, [s]) == Success([p.apply(s).value] + []);
      assert [p.apply(s).value] + [] == [p.apply(s).value];
    }
  }

  /** Trailing commas after a non-empty input are ignored, because `split`
      drops trailing empty tokens; a lone `,` gives the empty list without
      calling the element parser. */
  lemma ParseListTrailingComma<T>(p: ValueParser<T>, s: string)
    ensures s != "" ==> ParseList(p, s + ",") == ParseList(p, s)
    ensures ParseList(p, ",") == Success([])
  {
    if s != "" {
      SplitIgnoresTrailingDelimiter(s, ',');
    }
    SplitLoneDelimiter(',');
    assert [','] == ",";
  }

  /** Joining two inputs with `,` concatenates their lists, provided the
      first does not end in `,` (or is empty) and the second is non-empty and
      does not end in `,`, so that `split` drops nothing. */
  lemma ParseListConcat<T>(p: ValueParser<T>, s1: string, s2: string)
    requires s1 == [] || s1[|s1| - 1] != ','
    requires s2 != [] && s2[|s2| - 1] != ','
    requires ParseList(p, s1).Success? && ParseList(p, s2).Success?
    ensures ParseList(p, s1 + "," + s2) == Success(ParseList(p, s1).value + ParseList(p, s2).value)
  {
    var s := s1 + "," + s2;
    SplitKeepsAllPieces(s1, ',');
    SplitKeepsAllPieces(s2, ',');
    assert s[|s| - 1] == s2[|s2| - 1];
    SplitKeepsAllPieces(s, ',');
    SplitAllConcat(s1, s2, ',');
    ParseTokensAppend(p.apply, Split(s1, ','), Split(s2, ','));
  }

  /** `getListPropertyClass`: each of the five canonical parsers resolves to
      the list shape of its own element kind; any other parser is rejected
      with an error naming the list container and the parser. */
  function ListPropertyClass(k: ElementKind): (r: Result<Shape, ConfigError>)
    ensures r.Success? <==> IsCanonical(k)
    ensures r.Success? ==> r.value.ListOf? && r.value.elem == k
    ensures r.Failure? ==> r.error == UnsupportedValueParser(ListContainer, k)
  {
    var result: Option<Shape> :=
      if k == Str then Some(ListOf(Str))
      else if k == Dbl then Some(ListOf(Dbl))
      else if k == Lng then Some(ListOf(Lng))
      else if k == Int then Some(ListOf(Int))
      else if k == Dur then Some(ListOf(Dur))
      else None;
    if result.None? then Failure(UnsupportedValueParser(ListContainer, k))
    else Success(result.value)
  }

  /** Distinct canonical parsers resolve to distinct list shapes. */
  lemma ListPropertyClassInjective(k1: ElementKind, k2: ElementKind)
    requires ListPropertyClass(k1).Success? && ListPropertyClass(k2).Success?
    requires ListPropertyClass(k1) == ListPropertyClass(k2)
    ensures k1 == k2
  {
  }

  /** A constructed list property: its name, its declared shape, and the
      element parser its grammar closes over. */
  datatype ListProperty<T> = ListProperty(name: string, propertyClass: Shape, valueParser: ValueParser<T>)
  {
    /** The grammar the property installs on the shared base. */
    function Parse(s: string): (r: Result<seq<T>, ConversionError>)
      ensures r.Success? ==> |r.value| == |Split(s, ',')|
    {
      ParseList(valueParser, s)
    }
  }

  /** The constructor: it resolves the shape first, so an unsupported parser
      fails construction and no property is built. */
  function NewListProperty<T>(name: string, p: ValueParser<T>): (r: Result<ListProperty<T>, ConfigError>)
    ensures r.Success? <==> IsCanonical(p.kind)
    ensures r.Success? ==> r.value.name == name && r.value.propertyClass == ListOf(p.kind)
    ensures r.Success? ==> forall s :: r.value.Parse(s) == ParseList(p, s)
    ensures r.Failure? ==> r.error == UnsupportedValueParser(ListContainer, p.kind)
  {
    var cls :- ListPropertyClass(p.kind);
    Success(ListProperty(name, cls, p))
  }
}
