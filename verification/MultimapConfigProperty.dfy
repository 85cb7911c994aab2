/** A configuration property exposed as a multimap from string keys to
    ordered lists. The raw string is split on `,`; a token `key=value` sets
    the current key and contributes `value`, a token without `=` contributes
    itself under the key set last, and tokens before any key are skipped. */
module MultimapConfigProperty {
  import opened Wrappers
  import opened JavaStrings
  import opened ConfigProperty
  import opened ListConfigProperty

  /** The parsed value: a HashMap, so keys carry no order; each key's list
      keeps encounter order. */
  type Multimap<T> = map<string, seq<T>>

  /** `result.computeIfAbsent(k, ArrayList::new).add(x)`: `x` goes at the end
      of k's list, which is created on first use; other keys are untouched. */
  function Append<T>(m: Multimap<T>, k: string, x: T): (r: Multimap<T>)
    ensures r.Keys == m.Keys + {k}
    ensures k in m ==> r[k] == m[k] + [x]
    ensures k !in m ==> r[k] == [x]
    ensures forall j :: j in m && j != k ==> r[j] == m[j]
  {
    m[k := (if k in m then m[k] else []) + [x]]
  }

  /** The key a token sets: the text before its first `=`, if it has one. */
  function TokenKey(t: string): Option<string>
  {
    var entry := SplitFirst(t, '=');
    if |entry| > 1 then Some(entry[0]) else None
  }

  /** The value text of a token: after its first `=`, or the whole token. */
  function TokenValue(t: string): string
  {
    var entry := SplitFirst(t, '=');
    entry[|entry| - 1]
  }

  /** A token has a key exactly when it contains `=`; the key is free of
      `=`, and key, `=` and value text glue back to the token. A token
      without `=` is its own value text. */
  lemma TokenSpec(t: string)
    ensures TokenKey(t).Some? <==> '=' in t
    ensures TokenKey(t).Some? ==> '=' !in TokenKey(t).value
    ensures TokenKey(t).Some? ==> TokenKey(t).value + ['='] + TokenValue(t) == t
    ensures TokenKey(t).None? ==> TokenValue(t) == t
  {
    var entry := SplitFirst(t, '=');
  }

  /** The grammar as a fold over the tokens, carrying the current key and the
      map built so far: the loop of `toMultimapPropertyParser`, one token per
      step. */
  function Fold<T>(apply: string -> Result<T, ConversionError>, ts: seq<string>,
                   key: Option<string>, acc: Multimap<T>): Result<Multimap<T>, ConversionError>
    decreases |ts|
  {
    if ts == [] then Success(acc)
    else
      var key' := if TokenKey(ts[0]).Some? then TokenKey(ts[0]) else key;
      if key'.None? then Fold(apply, ts[1..], key', acc)
      else
        match apply(TokenValue(ts[0]))
        case Failure(e) => Failure(e)
        case Success(x) => Fold(apply, ts[1..], key', Append(acc, key'.value, x))
  }

  /** The fold only adds: no key of the map built so far is lost, each of
      its lists only grows at the end, and every key it adds has a
      non-empty list. */
  lemma {:induction false} FoldGrows<T>(apply: string -> Result<T, ConversionError>, ts: seq<string>,
                                        key: Option<string>, acc: Multimap<T>)
    ensures var r := Fold(apply, ts, key, acc);
      r.Success? ==> acc.Keys <= r.value.Keys
    ensures var r := Fold(apply, ts, key, acc);
      r.Success? ==> forall k :: k in acc ==> acc[k] <= r.value[k]
    ensures var r := Fold(apply, ts, key, acc);
      r.Success? ==> forall k :: k in r.value && k !in acc ==> |r.value[k]| > 0
    decreases |ts|
  {
    if ts != [] {
      var key' := if TokenKey(ts[0]).Some? then TokenKey(ts[0]) else key;
      if key'.None? {
        FoldGrows(apply, ts[1..], key', acc);
      } else if apply(TokenValue(ts[0])).Success? {
        FoldGrows(apply, ts[1..], key', Append(acc, key'.value, apply(TokenValue(ts[0])).value));
      }
    }
  }

  /** What `toMultimapPropertyParser(p)` computes for the raw string `s`. */
  function MultimapGrammar<T>(p: ValueParser<T>, s: string): (r: Result<Multimap<T>, ConversionError>)
    ensures r.Success? ==> forall k :: k in r.value ==> |r.value[k]| > 0
  {
    FoldGrows(p.apply, Split(s, ','), None, map[]);
    Fold(p.apply, Split(s, ','), None, map[])
  }

  /** The multimap grammar as the source writes it: a loop over the tokens
      that updates a mutable current key and a mutable map; an element parse
      failure propagates out of the loop with no map returned. */
  method ParseMultimap<T>(p: ValueParser<T>, s: string) returns (r: Result<Multimap<T>, ConversionError>)
    ensures r == MultimapGrammar(p, s)
    ensures r.Success? ==> r.value.Keys == KeysOf(Split(s, ','))
    ensures r.Success? ==> forall k :: k in r.value ==> |r.value[k]| > 0
  {
    var result: Multimap<T> := map[];
    var tokens := Split(s, ',');
    var key: Option<string> := None;
    for i := 0 to |tokens|
      invariant Fold(p.apply, tokens[i..], key, result) == MultimapGrammar(p, s)
    {
      ghost var keyBefore := key;
      assert tokens[i..] == [tokens[i]] + tokens[i + 1..];
      var entry := SplitFirst(tokens[i], '=');
      var value: string;
      if |entry| > 1 {
        key := Some(entry[0]);
        value := entry[1];
      } else {
        value := entry[0];
      }
      assert key == (if TokenKey(tokens[i]).Some? then TokenKey(tokens[i]) else keyBefore);
      assert value == TokenValue(tokens[i]);
      if key.Some? {
        var x :- p.apply(value);
        var list := if key.value in result then result[key.value] else [];
        result := result[key.value := list + [x]];
      }
    }
    assert tokens[|tokens|..] == [];
    r := Success(result);
    MultimapKeys(p, s);
  }

  // ---------------------------------------------------------------------
  // The grammar restated over the kept (key, value text) pairs, with the
  // map building separated from the choice of key

  /** The (key, value text) pairs the grammar keeps, in encounter order: each
      token from the first keyed one on, paired with the key in force. */
  function Entries(ts: seq<string>, key: Option<string>): seq<(string, string)>
    decreases |ts|
  {
    if ts == [] then []
    else
      var key' := if TokenKey(ts[0]).Some? then TokenKey(ts[0]) else key;
      if key'.None? then Entries(ts[1..], key')
      else [(key'.value, TokenValue(ts[0]))] + Entries(ts[1..], key')
  }

  /** Every key written out in some token: the text before the first `=` of
      each token that has one. */
  function KeysOf(ts: seq<string>): set<string>
  {
    set t | t in ts && TokenKey(t).Some? :: TokenKey(t).value
  }

  /** How many tokens come before the first token that has a `=`. */
  function LeadingUnkeyed(ts: seq<string>): (n: nat)
    ensures n <= |ts|
    ensures forall i :: 0 <= i < n ==> TokenKey(ts[i]).None?
    ensures n < |ts| ==> TokenKey(ts[n]).Some?
  {
    if ts == [] || TokenKey(ts[0]).Some? then 0 else 1 + LeadingUnkeyed(ts[1..])
  }

  /** The keys of a sequence of pairs. */
  function KeySet(es: seq<(string, string)>): set<string>
  {
    set i | 0 <= i < |es| :: es[i].0
  }

  /** The value texts paired with key `k`, in order. */
  function ValuesFor(es: seq<(string, string)>, k: string): (vs: seq<string>)
    ensures |vs| <= |es|
    ensures k in KeySet(es) <==> |vs| > 0
  {
    if es == [] then []
    else if es[0].0 == k then [es[0].1] + ValuesFor(es[1..], k)
    else
      assert KeySet(es) == {es[0].0} + KeySet(es[1..]) by { KeySetCons(es); }
      ValuesFor(es[1..], k)
  }

  /** The pairs added to an initial map one by one, each value converted
      first; the first failing conversion aborts. */
  function AppendAll<T>(apply: string -> Result<T, ConversionError>, es: seq<(string, string)>,
                        acc: Multimap<T>): Result<Multimap<T>, ConversionError>
  {
    if es == [] then Success(acc)
    else
      match apply(es[0].1)
      case Failure(e) => Failure(e)
      case Success(x) => AppendAll(apply, es[1..], Append(acc, es[0].0, x))
  }

  /** The sum of the lengths of all lists in a multimap. */
  ghost function TotalValues<T>(m: Multimap<T>): nat
    decreases |m|
  {
    if m == map[] then 0
    else
      var k :| k in m;
      assert |m - {k}| < |m| by { assert m.Keys - {k} < m.Keys; }
      |m[k]| + TotalValues(m - {k})
  }

  // ---------------------------------------------------------------------
  // Helper facts

  lemma KeySetCons(es: seq<(string, string)>)
    requires es != []
    ensures KeySet(es) == {es[0].0} + KeySet(es[1..])
  {
    forall k | k in KeySet(es) ensures k in {es[0].0} + KeySet(es[1..]) {
      var i :| 0 <= i < |es| && es[i].0 == k;
      if i > 0 { assert es[1..][i - 1] == es[i]; }
    }
    forall k | k in KeySet(es[1..]) ensures k in KeySet(es) {
      var i :| 0 <= i < |es[1..]| && es[1..][i].0 == k;
      assert es[i + 1] == es[1..][i];
    }
  }

  lemma KeysOfCons(ts: seq<string>)
    requires ts != []
    ensures KeysOf(ts) == (if TokenKey(ts[0]).Some? then {TokenKey(ts[0]).value} else {}) + KeysOf(ts[1..])
  {
    assert ts == [ts[0]] + ts[1..];
    forall t | t in ts ensures t == ts[0] || t in ts[1..] { }
  }

  /** Removing one key takes away exactly the length of its list, whichever
      key the definition of TotalValues happens to pick first. */
  lemma {:induction false} TotalValuesRemove<T>(m: Multimap<T>, k: string)
    requires k in m
    ensures TotalValues(m) == |m[k]| + TotalValues(m - {k})
    decreases |m|
  {
    var j :| j in m && TotalValues(m) == |m[j]| + TotalValues(m - {j});
    if j != k {
      assert |m - {j}| < |m| by { assert m.Keys - {j} < m.Keys; }
      assert |m - {k}| < |m| by { assert m.Keys - {k} < m.Keys; }
      TotalValuesRemove(m - {j}, k);
      TotalValuesRemove(m - {k}, j);
      assert m - {j} - {k} == m - {k} - {j};
    }
  }

  /** Appending one value adds one to the total. */
  lemma TotalValuesAppend<T>(m: Multimap<T>, k: string, x: T)
    ensures TotalValues(Append(m, k, x)) == TotalValues(m) + 1
  {
    var m' := Append(m, k, x);
    TotalValuesRemove(m', k);
    if k in m {
      TotalValuesRemove(m, k);
      assert m' - {k} == m - {k};
    } else {
      assert m' - {k} == m;
    }
  }

  // ---------------------------------------------------------------------
  // The loop's fold is the reference description

  /** Running the fold is the same as collecting the kept pairs first and
      then adding them to the map one by one. */
  lemma {:induction false} FoldIsAppendAll<T>(apply: string -> Result<T, ConversionError>, ts: seq<string>,
                                              key: Option<string>, acc: Multimap<T>)
    ensures Fold(apply, ts, key, acc) == AppendAll(apply, Entries(ts, key), acc)
    decreases |ts|
  {
    if ts != [] {
      var key' := if TokenKey(ts[0]).Some? then TokenKey(ts[0]) else key;
      if key'.None? {
        FoldIsAppendAll(apply, ts[1..], key', acc);
      } else {
        var es := Entries(ts, key);
        assert es[0] == (key'.value, TokenValue(ts[0]));
        assert es[1..] == Entries(ts[1..], key');
        match apply(TokenValue(ts[0]))
        case Failure(_) =>
        case Success(x) =>
          FoldIsAppendAll(apply, ts[1..], key', Append(acc, key'.value, x));
      }
    }
  }

  /** AppendAll succeeds exactly when every value converts. */
  lemma {:induction false} AppendAllSucceeds<T>(apply: string -> Result<T, ConversionError>,
                                                es: seq<(string, string)>, acc: Multimap<T>)
    ensures AppendAll(apply, es, acc).Success? <==> forall i :: 0 <= i < |es| ==> apply(es[i].1).Success?
  {
    if es != [] {
      assert forall i :: 1 <= i < |es| ==> es[i] == es[1..][i - 1];
      match apply(es[0].1)
      case Failure(_) =>
      case Success(x) =>
        AppendAllSucceeds(apply, es[1..], Append(acc, es[0].0, x));
    }
  }

  /** A successful AppendAll adds exactly the keys of the pairs. */
  lemma {:induction false} AppendAllKeys<T>(apply: string -> Result<T, ConversionError>,
                                            es: seq<(string, string)>, acc: Multimap<T>)
    requires AppendAll(apply, es, acc).Success?
    ensures AppendAll(apply, es, acc).value.Keys == acc.Keys + KeySet(es)
  {
    if es != [] {
      KeySetCons(es);
      var x := apply(es[0].1).value;
      AppendAllKeys(apply, es[1..], Append(acc, es[0].0, x));
    }
  }

  /** In a successful AppendAll each key's list grows by the conversions of
      that key's values, in order. */
  lemma {:induction false} AppendAllLists<T>(apply: string -> Result<T, ConversionError>,
                                             es: seq<(string, string)>, acc: Multimap<T>, k: string)
    requires AppendAll(apply, es, acc).Success?
    requires k in AppendAll(apply, es, acc).value
    ensures ParseTokens(apply, ValuesFor(es, k)).Success?
    ensures AppendAll(apply, es, acc).value[k] ==
      (if k in acc then acc[k] else []) + ParseTokens(apply, ValuesFor(es, k)).value
  {
    var before := if k in acc then acc[k] else [];
    if es == [] {
      assert ParseTokens(apply, ValuesFor(es, k)) == Success([]);
      assert before + [] == before;
    } else {
      var x := apply(es[0].1).value;
      var acc' := Append(acc, es[0].0, x);
      assert AppendAll(apply, es, acc) == AppendAll(apply, es[1..], acc');
      AppendAllLists(apply, es[1..], acc', k);
      ValuesForStep(apply, es, k, x);
      var xs := ParseTokens(apply, ValuesFor(es[1..], k)).value;
      var ys := ParseTokens(apply, ValuesFor(es, k)).value;
      var m := AppendAll(apply, es, acc).value;
      var mid := if k in acc' then acc'[k] else [];
      assert m[k] == mid + xs;
      if es[0].0 == k {
        assert ys == [x] + xs;
        ConcatStep(m[k], before, x, xs, mid, ys);
      } else {
        assert ys == xs && mid == before;
      }
    }
  }

  lemma ConcatStep<T>(mk: seq<T>, before: seq<T>, x: T, xs: seq<T>, mid: seq<T>, ys: seq<T>)
    requires mk == mid + xs && mid == before + [x] && ys == [x] + xs
    ensures mk == before + ys
  {
  }

  /** One step of ValuesFor under conversion: the first pair contributes its
      converted value to its own key only. */
  lemma ValuesForStep<T>(apply: string -> Result<T, ConversionError>, es: seq<(string, string)>, k: string, x: T)
    requires es != [] && apply(es[0].1) == Success(x)
    requires ParseTokens(apply, ValuesFor(es[1..], k)).Success?
    ensures ParseTokens(apply, ValuesFor(es, k)).Success?
    ensures es[0].0 == k ==>
      ParseTokens(apply, ValuesFor(es, k)).value == [x] + ParseTokens(apply, ValuesFor(es[1..], k)).value
    ensures es[0].0 != k ==> ValuesFor(es, k) == ValuesFor(es[1..], k)
  {
    var vs := ValuesFor(es[1..], k);
    if es[0].0 == k {
      assert ValuesFor(es, k) == [es[0].1] + vs;
      assert ([es[0].1] + vs)[0] == es[0].1;
      assert ([es[0].1] + vs)[1..] == vs;
    }
  }

  /** AppendAll adds one to the total per pair. */
  lemma {:induction false} AppendAllTotal<T>(apply: string -> Result<T, ConversionError>,
                                             es: seq<(string, string)>, acc: Multimap<T>)
    requires AppendAll(apply, es, acc).Success?
    ensures TotalValues(AppendAll(apply, es, acc).value) == TotalValues(acc) + |es|
  {
    if es != [] {
      var x := apply(es[0].1).value;
      AppendAllTotal(apply, es[1..], Append(acc, es[0].0, x));
      TotalValuesAppend(acc, es[0].0, x);
    }
  }

  /** A failing AppendAll reports the error of the first value that fails to
      convert. */
  lemma {:induction false} AppendAllFailure<T>(apply: string -> Result<T, ConversionError>,
                                               es: seq<(string, string)>, acc: Multimap<T>)
    requires AppendAll(apply, es, acc).Failure?
    ensures exists i :: 0 <= i < |es| && apply(es[i].1) == Failure(AppendAll(apply, es, acc).error) &&
                        (forall j :: 0 <= j < i ==> apply(es[j].1).Success?)
  {
    var e := AppendAll(apply, es, acc).error;
    match apply(es[0].1)
    case Failure(_) =>
      assert apply(es[0].1) == Failure(e);
    case Success(x) =>
      AppendAllFailure(apply, es[1..], Append(acc, es[0].0, x));
      var i :| 0 <= i < |es[1..]| && apply(es[1..][i].1) == Failure(e) &&
        forall j :: 0 <= j < i ==> apply(es[1..][j].1).Success?;
      assert forall j :: 1 <= j <= i ==> es[j] == es[1..][j - 1];
      assert apply(es[i + 1].1) == Failure(e);
  }

  /** The keys of the kept pairs are the keys written in the tokens, plus the
      carried key when some token before the first keyed one uses it. */
  lemma {:induction false} EntriesKeys(ts: seq<string>, key: Option<string>)
    ensures key.None? ==> KeySet(Entries(ts, key)) == KeysOf(ts)
    ensures key.Some? ==>
      KeySet(Entries(ts, key)) == KeysOf(ts) + (if LeadingUnkeyed(ts) > 0 then {key.value} else {})
    decreases |ts|
  {
    if ts != [] {
      KeysOfCons(ts);
      var key' := if TokenKey(ts[0]).Some? then TokenKey(ts[0]) else key;
      EntriesKeys(ts[1..], key');
      if key'.Some? {
        KeySetCons(Entries(ts, key));
        assert Entries(ts, key)[1..] == Entries(ts[1..], key');
        if TokenKey(ts[0]).Some? {
          assert key'.value in KeysOf(ts);
        }
      }
    }
  }

  /** All tokens from the first keyed one on are kept; the tokens before it
      are kept only when a key is already in force. */
  lemma {:induction false} EntriesCount(ts: seq<string>, key: Option<string>)
    ensures key.None? ==> |Entries(ts, key)| == |ts| - LeadingUnkeyed(ts)
    ensures key.Some? ==> |Entries(ts, key)| == |ts|
    decreases |ts|
  {
    if ts != [] {
      var key' := if TokenKey(ts[0]).Some? then TokenKey(ts[0]) else key;
      EntriesCount(ts[1..], key');
    }
  }

  /** Unkeyed tokens at the front are discarded when no key is in force: the
      result is as if they were not there. */
  lemma {:induction false} EntriesSkipLeading(u: seq<string>, ts: seq<string>)
    requires forall i :: 0 <= i < |u| ==> TokenKey(u[i]).None?
    ensures Entries(u + ts, None) == Entries(ts, None)
    decreases |u|
  {
    if u != [] {
      assert (u + ts)[0] == u[0];
      assert (u + ts)[1..] == u[1..] + ts;
      EntriesSkipLeading(u[1..], ts);
    } else {
      assert u + ts == ts;
    }
  }

  /** The key in force at token i: the key of the last keyed token among
      tokens 0..i, or `key` if none of them has one. */
  function KeyAt(ts: seq<string>, i: nat, key: Option<string>): (r: Option<string>)
    requires i < |ts|
    ensures key.Some? ==> r.Some?
    ensures TokenKey(ts[i]).Some? ==> r == TokenKey(ts[i])
    decreases i
  {
    if TokenKey(ts[i]).Some? then TokenKey(ts[i])
    else if i == 0 then key
    else KeyAt(ts, i - 1, key)
  }

  /** Looking back from inside a suffix that starts with a keyed token gives
      the same key as looking back in the whole sequence, whatever key was in
      force before. */
  lemma {:induction false} KeyAtSuffix(ts: seq<string>, m: nat, j: nat, k1: Option<string>, k2: Option<string>)
    requires m + j < |ts| && TokenKey(ts[m]).Some?
    ensures KeyAt(ts, m + j, k1) == KeyAt(ts[m..], j, k2)
    decreases j
  {
    assert ts[m..][j] == ts[m + j];
    if j > 0 && TokenKey(ts[m + j]).None? {
      KeyAtSuffix(ts, m, j - 1, k1, k2);
    }
  }

  /** Dropping the first token shifts the look-back by one, with the key in
      force after that token as the starting key. */
  lemma {:induction false} KeyAtShift(ts: seq<string>, i: nat, key: Option<string>)
    requires 1 <= i < |ts|
    ensures KeyAt(ts, i, key) ==
      KeyAt(ts[1..], i - 1, if TokenKey(ts[0]).Some? then TokenKey(ts[0]) else key)
    decreases i
  {
    assert ts[1..][i - 1] == ts[i];
    if i > 1 && TokenKey(ts[i]).None? {
      KeyAtShift(ts, i - 1, key);
    }
  }

  /** Carry-forward at one token while a key is in force: token i is kept,
      paired with the key of the last keyed token up to and including it. */
  lemma {:induction false} EntryAt(ts: seq<string>, key: Option<string>, i: nat)
    requires key.Some? && i < |ts|
    ensures i < |Entries(ts, key)|
    ensures KeyAt(ts, i, key) == Some(Entries(ts, key)[i].0)
    ensures Entries(ts, key)[i].1 == TokenValue(ts[i])
    decreases i
  {
    EntriesCount(ts, key);
    var key' := if TokenKey(ts[0]).Some? then TokenKey(ts[0]) else key;
    var es := Entries(ts, key);
    assert es == [(key'.value, TokenValue(ts[0]))] + Entries(ts[1..], key');
    if i > 0 {
      EntryAt(ts[1..], key', i - 1);
      KeyAtShift(ts, i, key);
      assert ts[1..][i - 1] == ts[i];
      assert es[i] == Entries(ts[1..], key')[i - 1];
    }
  }

  /** Carry-forward, in closed form, while a key is in force: every token is
      kept, and token i is paired with the key of the last keyed token up to
      and including it. */
  lemma {:induction false} EntriesAt(ts: seq<string>, key: Option<string>)
    requires key.Some?
    ensures |Entries(ts, key)| == |ts|
    ensures forall i :: 0 <= i < |ts| ==>
      KeyAt(ts, i, key) == Some(Entries(ts, key)[i].0) && Entries(ts, key)[i].1 == TokenValue(ts[i])
  {
    EntriesCount(ts, key);
    forall i | 0 <= i < |ts|
      ensures KeyAt(ts, i, key) == Some(Entries(ts, key)[i].0) && Entries(ts, key)[i].1 == TokenValue(ts[i])
    {
      EntryAt(ts, key, i);
    }
  }

  /** With no key in force, the kept pairs start at the first keyed token,
      as if the input began there. */
  lemma {:induction false} EntriesFromFirstKey(ts: seq<string>)
    requires LeadingUnkeyed(ts) < |ts|
    ensures Entries(ts, None) == Entries(ts[LeadingUnkeyed(ts)..], TokenKey(ts[LeadingUnkeyed(ts)]))
  {
    var n := LeadingUnkeyed(ts);
    var u, rest := ts[..n], ts[n..];
    assert forall i :: 0 <= i < |u| ==> TokenKey(u[i]).None? by {
      forall i | 0 <= i < |u| ensures TokenKey(u[i]).None? {
        assert u[i] == ts[i];
      }
    }
    assert u + rest == ts;
    EntriesSkipLeading(u, rest);
    EntriesFromKeyedToken(rest, None, TokenKey(ts[n]));
  }

  /** From a keyed token on, the key in force before it does not matter. */
  lemma {:induction false} EntriesFromKeyedToken(ts: seq<string>, k1: Option<string>, k2: Option<string>)
    requires ts != [] && TokenKey(ts[0]).Some?
    ensures Entries(ts, k1) == Entries(ts, k2)
  {
  }

  /** Carry-forward from the start of the input: the tokens before the first
      keyed one are dropped, and the j-th kept pair is token n + j (n being
      the number of dropped tokens) with the key of the last keyed token up
      to and including it. */
  lemma {:induction false} EntriesAtStart(ts: seq<string>)
    ensures |Entries(ts, None)| == |ts| - LeadingUnkeyed(ts)
    ensures forall j :: 0 <= j < |Entries(ts, None)| ==>
      var i := LeadingUnkeyed(ts) + j;
      i < |ts| && KeyAt(ts, i, None) == Some(Entries(ts, None)[j].0) &&
      Entries(ts, None)[j].1 == TokenValue(ts[i])
  {
    EntriesCount(ts, None);
    forall j | 0 <= j < |Entries(ts, None)|
      ensures var i := LeadingUnkeyed(ts) + j;
        i < |ts| && KeyAt(ts, i, None) == Some(Entries(ts, None)[j].0) &&
        Entries(ts, None)[j].1 == TokenValue(ts[i])
    {
      EntryAtStart(ts, j);
    }
  }

  /** Carry-forward from the start of the input, at the j-th kept pair. */
  lemma {:induction false} EntryAtStart(ts: seq<string>, j: nat)
    requires LeadingUnkeyed(ts) + j < |ts|
    ensures j < |Entries(ts, None)|
    ensures var i := LeadingUnkeyed(ts) + j;
      i < |ts| && KeyAt(ts, i, None) == Some(Entries(ts, None)[j].0) &&
      Entries(ts, None)[j].1 == TokenValue(ts[i])
  {
    var n := LeadingUnkeyed(ts);
    var rest, k0 := ts[n..], TokenKey(ts[n]);
    EntriesFromFirstKey(ts);
    EntryAt(rest, k0, j);
    KeyAtSuffix(ts, n, j, None, k0);
    assert rest[j] == ts[n + j];
  }

  // ---------------------------------------------------------------------
  // What the grammar promises

  /** The parse succeeds exactly when every kept value converts; on failure
      it reports the first kept value that does not. */
  lemma MultimapSucceedsIff<T>(p: ValueParser<T>, s: string)
    ensures var es := Entries(Split(s, ','), None);
      MultimapGrammar(p, s).Success? <==> forall i :: 0 <= i < |es| ==> p.apply(es[i].1).Success?
    ensures var es := Entries(Split(s, ','), None);
      MultimapGrammar(p, s).Failure? ==>
        exists i :: 0 <= i < |es| && p.apply(es[i].1) == Failure(MultimapGrammar(p, s).error) &&
          forall j :: 0 <= j < i ==> p.apply(es[j].1).Success?
  {
    var es := Entries(Split(s, ','), None);
    FoldIsAppendAll(p.apply, Split(s, ','), None, map[]);
    AppendAllSucceeds(p.apply, es, map[]);
    if MultimapGrammar(p, s).Failure? {
      AppendAllFailure(p.apply, es, map[]);
    }
  }

  /** The keys of the result are exactly the keys written before a `=` in
      some token. */
  lemma MultimapKeys<T>(p: ValueParser<T>, s: string)
    requires MultimapGrammar(p, s).Success?
    ensures MultimapGrammar(p, s).value.Keys == KeysOf(Split(s, ','))
  {
    var ts := Split(s, ',');
    FoldIsAppendAll(p.apply, ts, None, map[]);
    AppendAllKeys(p.apply, Entries(ts, None), map[]);
    EntriesKeys(ts, None);
  }

  /** Each key's list is the list grammar applied to that key's value texts,
      in encounter order: carried-forward values and values of a repeated key
      are appended; no list is empty. */
  lemma MultimapValues<T>(p: ValueParser<T>, s: string)
    requires MultimapGrammar(p, s).Success?
    ensures var m := MultimapGrammar(p, s).value; var es := Entries(Split(s, ','), None);
      forall k :: k in m ==> ParseTokens(p.apply, ValuesFor(es, k)) == Success(m[k]) && |m[k]| > 0
  {
    var ts := Split(s, ',');
    var es := Entries(ts, None);
    FoldIsAppendAll(p.apply, ts, None, map[]);
    AppendAllKeys(p.apply, es, map[]);
    var m := MultimapGrammar(p, s).value;
    forall k | k in m ensures ParseTokens(p.apply, ValuesFor(es, k)) == Success(m[k]) && |m[k]| > 0 {
      AppendAllLists(p.apply, es, map[], k);
      assert [] + ParseTokens(p.apply, ValuesFor(es, k)).value == ParseTokens(p.apply, ValuesFor(es, k)).value;
    }
  }

  /** Carry-forward on the parsed map: every token from the first keyed one
      on converts, and its conversion is in the list of the key in force at
      that token (its own key, or the last key written before it). */
  lemma {:induction false} MultimapCarryForward<T>(p: ValueParser<T>, s: string, i: nat)
    requires MultimapGrammar(p, s).Success?
    requires LeadingUnkeyed(Split(s, ',')) <= i < |Split(s, ',')|
    ensures var ts := Split(s, ','); var m := MultimapGrammar(p, s).value;
      && KeyAt(ts, i, None).Some?
      && KeyAt(ts, i, None).value in m
      && p.apply(TokenValue(ts[i])).Success?
      && p.apply(TokenValue(ts[i])).value in m[KeyAt(ts, i, None).value]
  {
    var ts := Split(s, ',');
    var m := MultimapGrammar(p, s).value;
    var es := Entries(ts, None);
    var j := i - LeadingUnkeyed(ts);
    EntriesAtStart(ts);
    var k := es[j].0;
    assert KeyAt(ts, i, None) == Some(k) && es[j].1 == TokenValue(ts[i]);
    assert k in KeySet(es);
    EntriesKeys(ts, None);
    MultimapKeys(p, s);
    MultimapValues(p, s);
    var vs := ValuesFor(es, k);
    ValuesForContains(es, j);
    var l :| 0 <= l < |vs| && vs[l] == TokenValue(ts[i]);
    ParseTokensElementwise(p.apply, vs);
    assert p.apply(vs[l]) == Success(m[k][l]);
  }

  /** The value text of every pair occurs among the values of its key. */
  lemma {:induction false} ValuesForContains(es: seq<(string, string)>, j: nat)
    requires j < |es|
    ensures exists l :: 0 <= l < |ValuesFor(es, es[j].0)| && ValuesFor(es, es[j].0)[l] == es[j].1
  {
    var k := es[j].0;
    if j == 0 {
      assert ValuesFor(es, k)[0] == es[0].1;
    } else {
      ValuesForContains(es[1..], j - 1);
      var rest := ValuesFor(es[1..], k);
      var l :| 0 <= l < |rest| && rest[l] == es[j].1;
      if es[0].0 == k {
        assert ValuesFor(es, k) == [es[0].1] + rest;
        assert ValuesFor(es, k)[l + 1] == es[j].1;
      } else {
        assert ValuesFor(es, k) == rest;
      }
    }
  }

  /** The lists hold one value per token from the first keyed token on. */
  lemma MultimapTotal<T>(p: ValueParser<T>, s: string)
    requires MultimapGrammar(p, s).Success?
    ensures TotalValues(MultimapGrammar(p, s).value) == |Split(s, ',')| - LeadingUnkeyed(Split(s, ','))
  {
    var ts := Split(s, ',');
    FoldIsAppendAll(p.apply, ts, None, map[]);
    AppendAllTotal(p.apply, Entries(ts, None), map[]);
    EntriesCount(ts, None);
    var empty: Multimap<T> := map[];
    assert TotalValues(empty) == 0;
  }

  /** Tokens before the first keyed token are skipped without being
      converted: the result does not depend on them, even when they would
      fail to convert. */
  lemma MultimapSkipsLeadingTokens<T>(apply: string -> Result<T, ConversionError>, u: seq<string>, ts: seq<string>)
    requires forall i :: 0 <= i < |u| ==> TokenKey(u[i]).None?
    ensures Fold(apply, u + ts, None, map[]) == Fold(apply, ts, None, map[])
  {
    FoldIsAppendAll(apply, u + ts, None, map[]);
    FoldIsAppendAll(apply, ts, None, map[]);
    EntriesSkipLeading(u, ts);
  }

  /** The element parser is consulted only on kept value texts: two parsers
      that agree on those give the same result. */
  lemma MultimapUsesOnlyKeptValues<T>(p: ValueParser<T>, q: ValueParser<T>, s: string)
    requires forall e :: e in Entries(Split(s, ','), None) ==> p.apply(e.1) == q.apply(e.1)
    ensures MultimapGrammar(p, s) == MultimapGrammar(q, s)
  {
    var ts := Split(s, ',');
    FoldIsAppendAll(p.apply, ts, None, map[]);
    FoldIsAppendAll(q.apply, ts, None, map[]);
    AppendAllAgree(p.apply, q.apply, Entries(ts, None), map[]);
  }

  lemma {:induction false} AppendAllAgree<T>(f: string -> Result<T, ConversionError>, g: string -> Result<T, ConversionError>,
                                             es: seq<(string, string)>, acc: Multimap<T>)
    requires forall e :: e in es ==> f(e.1) == g(e.1)
    ensures AppendAll(f, es, acc) == AppendAll(g, es, acc)
  {
    if es != [] {
      assert es[0] in es;
      match f(es[0].1)
      case Failure(_) =>
      case Success(x) =>
        assert forall e :: e in es[1..] ==> e in es;
        AppendAllAgree(f, g, es[1..], Append(acc, es[0].0, x));
    }
  }

  // ---------------------------------------------------------------------
  // Shape resolution and construction

  /** `getMapPropertyClass`: each of the five canonical parsers resolves to
      the multimap shape of its own element kind; any other parser is
      rejected with an error naming the multimap container and the parser. */
  function MapPropertyClass(k: ElementKind): (r: Result<Shape, ConfigError>)
    ensures r.Success? <==> IsCanonical(k)
    ensures r.Success? ==> r.value.MultimapOf? && r.value.elem == k
    ensures r.Failure? ==> r.error == UnsupportedValueParser(MultimapContainer, k)
  {
    var result: Option<Shape> :=
      if k == Str then Some(MultimapOf(Str))
      else if k == Dbl then Some(MultimapOf(Dbl))
      else if k == Lng then Some(MultimapOf(Lng))
      else if k == Int then Some(MultimapOf(Int))
      else if k == Dur then Some(MultimapOf(Dur))
      else None;
    if result.None? then Failure(UnsupportedValueParser(MultimapContainer, k))
    else Success(result.value)
  }

  /** A list shape and a multimap shape are never the same marker type, and
      distinct canonical parsers resolve to distinct multimap shapes. */
  lemma ShapesDistinct(k1: ElementKind, k2: ElementKind)
    requires IsCanonical(k1) && IsCanonical(k2)
    ensures ListPropertyClass(k1).value != MapPropertyClass(k2).value
    ensures MapPropertyClass(k1) == MapPropertyClass(k2) ==> k1 == k2
  {
  }

  /** A constructed multimap property: its name, its declared shape, and the
      element parser its grammar closes over. */
  datatype MultimapProperty<T> = MultimapProperty(name: string, propertyClass: Shape, valueParser: ValueParser<T>)
  {
    /** The grammar the property installs on the shared base. */
    function Parse(s: string): (r: Result<Multimap<T>, ConversionError>)
      ensures r.Success? ==> forall k :: k in r.value ==> |r.value[k]| > 0
    {
      MultimapGrammar(valueParser, s)
    }
  }

  /** The constructor: it resolves the shape first, so an unsupported parser
      fails construction and no property is built. */
  function NewMultimapProperty<T>(name: string, p: ValueParser<T>): (r: Result<MultimapProperty<T>, ConfigError>)
    ensures r.Success? <==> IsCanonical(p.kind)
    ensures r.Success? ==> r.value.name == name && r.value.propertyClass == MultimapOf(p.kind)
    ensures r.Success? ==> forall s :: r.value.Parse(s) == MultimapGrammar(p, s)
    ensures r.Failure? ==> r.error == UnsupportedValueParser(MultimapContainer, p.kind)
  {
    var cls :- MapPropertyClass(p.kind);
    Success(MultimapProperty(name, cls, p))
  }
}
