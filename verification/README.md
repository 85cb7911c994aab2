# scalecube-config container properties in Dafny

This project models the value-shape and grammar core of scalecube-config's two
container properties:

- a **list property** (`ListConfigPropertyImpl`) turns a raw configuration
  string into an ordered list: the string is split on `,` with Java
  `String.split` semantics, and every token is converted by an element parser;
- a **multimap property** (`MultimapConfigPropertyImpl`) turns a raw string
  into a map from keys to lists. It runs a left-to-right loop over the
  `,`-tokens. A token `key=value` (cut at its first `=`) sets the current key;
  a token without `=` reuses the current key. Every value is appended to the
  list of its key, and tokens seen before any key are skipped.

Both properties resolve a *shape* (a marker class) from their element parser
when they are built. Only the five canonical parsers (string, double, long,
int, duration) are accepted; any other parser is rejected with an
`IllegalArgumentException`. Both also offer the read wrappers
`value(default)` and `valueOrThrow()`.

Modules:

- `Wrappers`: `Option` and `Result`.
- `JavaStrings`: the two forms of `java.lang.String.split` the grammars use.
  - `split(",")` with limit 0 is `Split`: trailing empty pieces are dropped, and an input with no delimiter comes back whole.
  - `split("=", 2)` is `SplitFirst`.
- `ConfigProperty`: what both property kinds share.
  - Element kinds, shapes, the element parser and the errors.
  - The read wrappers, over the base property's current value, which is given as an `Option`.
- `ListConfigProperty`: the list grammar, `getListPropertyClass` and the constructor.
- `MultimapConfigProperty`: the multimap grammar, `getMapPropertyClass` and the constructor.
  - `ParseMultimap` is an imperative method with the source's loop. It is proved equal to the fold `MultimapGrammar`.
  - The fold is then characterised against a parser-free list of the kept (key, value text) pairs, `Entries`.
- `GrammarExamples`: both grammars on concrete inputs, using a string parser and a digits-only parser.

An element parser is a `ValueParser(kind, apply)`. `kind` is which of the
registry's parser instances it is (`Str`, `Dbl`, `Lng`, `Int`, `Dur`, or
`Other`), and it replaces the Java reference-equality dispatch. `apply` is an
abstract partial conversion `string -> Result<T, ConversionError>`; a
`Failure` stands for the exception the Java parser throws.

Three behaviours of the code are easy to miss:

- `split(",")` drops trailing empty tokens, so `"a,b,,"` gives two tokens and `","` gives none (`ListConfigPropertyImpl.java:14`, `MultimapConfigPropertyImpl.java:18`).
- Tokens before the first keyed token are never converted, so an invalid one cannot fail the parse (`MultimapConfigPropertyImpl.java:29-30`).
- The multimap is a `HashMap` (`MultimapConfigPropertyImpl.java:17`), so no key order is claimed. Only the order within each key's list (encounter order) is modelled.

## Model

| member | source | states |
|---|---|---|
| JavaStrings.FirstIndex | config/src/main/java/io/scalecube/config/MultimapConfigPropertyImpl.java:21 | the index found holds the delimiter and no earlier index does (the first occurrence) |
| JavaStrings.SplitFirst | config/src/main/java/io/scalecube/config/MultimapConfigPropertyImpl.java:21 | `split("=", 2)` gives one piece exactly when there is no `=`, and that piece is the whole token; otherwise it gives the `=`-free text before the first `=` and the rest, which glue back to the token |
| JavaStrings.SplitFirstUnique | config/src/main/java/io/scalecube/config/MultimapConfigPropertyImpl.java:21 | any cut of a token at an `=` with no `=` before it is exactly the cut `split("=", 2)` makes |
| JavaStrings.SplitFirstExamples | config/src/main/java/io/scalecube/config/MultimapConfigPropertyImpl.java:21-25 | `"k=x=y"` gives `["k","x=y"]`, `"=5"` gives `["","5"]` and `"k="` gives `["k",""]`: only the first `=` cuts, and empty parts are kept |
| JavaStrings.StripTrailingEmpty | config/src/main/java/io/scalecube/config/ListConfigPropertyImpl.java:14 | the result is a prefix of the pieces that is empty or ends in a non-empty piece, and every piece dropped is empty |
| JavaStrings.JoinSplitAll | config/src/main/java/io/scalecube/config/ListConfigPropertyImpl.java:14 | gluing the pieces of an all-pieces split back together with the delimiter gives the input |
| JavaStrings.SplitAllPieces | config/src/main/java/io/scalecube/config/ListConfigPropertyImpl.java:14 | no piece contains the delimiter, and there is one more piece than there are delimiters in the input |
| JavaStrings.SplitAllJoin | config/src/main/java/io/scalecube/config/ListConfigPropertyImpl.java:14 | splitting a join of delimiter-free pieces on every delimiter gives back those pieces |
| JavaStrings.SplitAllConcat | config/src/main/java/io/scalecube/config/ListConfigPropertyImpl.java:14 | the pieces of `s1 + "," + s2` are the pieces of `s1` followed by the pieces of `s2` |
| JavaStrings.SplitAllAppendDelimiter | config/src/main/java/io/scalecube/config/ListConfigPropertyImpl.java:14 | a trailing delimiter adds exactly one empty piece at the end |
| JavaStrings.SplitAllLastPiece | config/src/main/java/io/scalecube/config/ListConfigPropertyImpl.java:14 | the last piece is empty if and only if the input is empty or ends in the delimiter |
| JavaStrings.SplitSpec | config/src/main/java/io/scalecube/config/ListConfigPropertyImpl.java:14 | `split(",")` returns the whole input when there is no `,`; otherwise it returns a prefix of all the pieces that is empty or ends in a non-empty piece, drops only empty pieces, and returns no token containing `,` |
| JavaStrings.SplitKeepsAllPieces | config/src/main/java/io/scalecube/config/ListConfigPropertyImpl.java:14 | when the input does not end in the delimiter nothing is dropped, and the token count is the number of delimiters plus one |
| JavaStrings.SplitJoin | config/src/main/java/io/scalecube/config/ListConfigPropertyImpl.java:14 | `split(",")` undoes a join of comma-free tokens whose last token is non-empty |
| JavaStrings.SplitIgnoresTrailingDelimiter | config/src/main/java/io/scalecube/config/ListConfigPropertyImpl.java:14 | a trailing `,` after a non-empty input does not change the tokens |
| JavaStrings.SplitLoneDelimiter | config/src/main/java/io/scalecube/config/ListConfigPropertyImpl.java:14 | a lone `,` splits into no token at all |
| JavaStrings.SplitLeadingExamples | config/src/main/java/io/scalecube/config/ListConfigPropertyImpl.java:14 | `""` gives the single token `""`, and `",a"` gives `["","a"]` (leading empty tokens are kept) |
| JavaStrings.Split | config/src/main/java/io/scalecube/config/ListConfigPropertyImpl.java:14 | `split(",")` (also used at `MultimapConfigPropertyImpl.java:18`): an input without the delimiter is its own single token; otherwise the tokens are a prefix of all the pieces that is empty or ends in a non-empty token (the rest of its contract is `SplitSpec`) |
| ConfigProperty.ValueOr | config/src/main/java/io/scalecube/config/ListConfigPropertyImpl.java:30-33 | `value(default)` returns the present value, or the default when there is none; it never fails |
| ConfigProperty.ValueOrThrow | config/src/main/java/io/scalecube/config/ListConfigPropertyImpl.java:35-38 | `valueOrThrow()` succeeds exactly when a value is present, returns it, and otherwise reports no-such-element for the property's name |
| ConfigProperty.ReadWrappersAgree | config/src/main/java/io/scalecube/config/MultimapConfigPropertyImpl.java:50-58 | `valueOrThrow()` fails exactly when `value(default)` falls back to its default; otherwise both return the same value, whatever the default |
| ListConfigProperty.ParseTokens | config/src/main/java/io/scalecube/config/ListConfigPropertyImpl.java:14 | a successful conversion has one element per token |
| ListConfigProperty.ParseTokensElementwise | config/src/main/java/io/scalecube/config/ListConfigPropertyImpl.java:14 | the conversion succeeds if and only if every token converts, and element i is then the conversion of token i |
| ListConfigProperty.ParseTokensFirstFailure | config/src/main/java/io/scalecube/config/ListConfigPropertyImpl.java:14 | a failed conversion reports the error of a failing token that has only successfully converting tokens before it |
| ListConfigProperty.ParseTokensAppend | config/src/main/java/io/scalecube/config/ListConfigPropertyImpl.java:14 | converting `a + b` converts `a` and then `b` and concatenates the results; a failure in `a` wins over one in `b` |
| ListConfigProperty.ParseList | config/src/main/java/io/scalecube/config/ListConfigPropertyImpl.java:13-15 | `toListPropertyParser`: a successful parse has one element per `split(",")` token (which element is which, and when it fails, is `ParseListElementwise`) |
| ListConfigProperty.ParseListElementwise | config/src/main/java/io/scalecube/config/ListConfigPropertyImpl.java:13-15 | the list grammar succeeds if and only if every `split(",")` token converts, and then it has one element per token, element i being the conversion of token i |
| ListConfigProperty.ParseListFailsAtFirstBadToken | config/src/main/java/io/scalecube/config/ListConfigPropertyImpl.java:14 | if some token fails, the whole parse fails with the error of the first failing token and returns no list |
| ListConfigProperty.ParseListSingleToken | config/src/main/java/io/scalecube/config/ListConfigPropertyImpl.java:14 | an input without `,` (including `""`) gives exactly one element, the conversion of the whole input, or that conversion's error |
| ListConfigProperty.ParseListTrailingComma | config/src/main/java/io/scalecube/config/ListConfigPropertyImpl.java:14 | a trailing `,` after a non-empty input changes nothing, and `","` parses to the empty list |
| ListConfigProperty.ParseListConcat | config/src/main/java/io/scalecube/config/ListConfigPropertyImpl.java:14 | joining two inputs with `,` concatenates their lists (order and duplicates kept) when neither ends in `,` and the second is non-empty |
| ListConfigProperty.ListPropertyClass | config/src/main/java/io/scalecube/config/ListConfigPropertyImpl.java:40-59 | shape resolution succeeds if and only if the parser is one of the five canonical ones; it then gives the list shape of that parser's own kind, and otherwise it fails with an unsupported-parser error naming the list container and the parser |
| ListConfigProperty.ListPropertyClassInjective | config/src/main/java/io/scalecube/config/ListConfigPropertyImpl.java:43-53 | distinct canonical parsers resolve to distinct list shapes |
| ListConfigProperty.NewListProperty | config/src/main/java/io/scalecube/config/ListConfigPropertyImpl.java:17-28 | construction succeeds if and only if the parser is canonical; the property then carries its name, the list shape of the parser's kind, and the list grammar over that parser; otherwise construction fails with the resolver's error |
| ListConfigProperty.ListProperty.Parse | config/src/main/java/io/scalecube/config/ListConfigPropertyImpl.java:27 | the grammar a list property installs is the list grammar over its parser: a successful parse has one element per token |
| MultimapConfigProperty.Append | config/src/main/java/io/scalecube/config/MultimapConfigPropertyImpl.java:30 | `computeIfAbsent(key, new list).add(x)`: the key is added, its list gains `x` at the end (or becomes `[x]` if it was new), and every other key is unchanged |
| MultimapConfigProperty.TokenSpec | config/src/main/java/io/scalecube/config/MultimapConfigPropertyImpl.java:21-28 | `TokenKey`/`TokenValue`: a token sets a key if and only if it contains `=`; the key is the `=`-free text before the first `=`, and key, `=` and value text glue back to the token; a token without `=` is its own value text |
| MultimapConfigProperty.FoldGrows | config/src/main/java/io/scalecube/config/MultimapConfigPropertyImpl.java:19-32 | `Fold`, one step per token: on success no key of the map built so far is lost, each existing list only grows at its end, and every key the tokens add has a non-empty list |
| MultimapConfigProperty.MultimapGrammar | config/src/main/java/io/scalecube/config/MultimapConfigPropertyImpl.java:14-35 | `toMultimapPropertyParser`: on success every key has a non-empty list (keys and lists in full are `MultimapKeys` and `MultimapValues`) |
| MultimapConfigProperty.ParseMultimap | config/src/main/java/io/scalecube/config/MultimapConfigPropertyImpl.java:14-35 | the source's loop computes the fold `MultimapGrammar`; on success its keys are the keys of the `=`-tokens, and every key has a non-empty list |
| MultimapConfigProperty.LeadingUnkeyed | config/src/main/java/io/scalecube/config/MultimapConfigPropertyImpl.java:19-31 | counts the tokens before the first one with `=`: none of them has a key, and the token after them has one |
| MultimapConfigProperty.FoldIsAppendAll | config/src/main/java/io/scalecube/config/MultimapConfigPropertyImpl.java:20-31 | the loop is equivalent to converting and appending, in order, exactly the (key, value text) pairs the grammar keeps |
| MultimapConfigProperty.AppendAllSucceeds | config/src/main/java/io/scalecube/config/MultimapConfigPropertyImpl.java:30 | appending the kept pairs succeeds if and only if every kept value converts |
| MultimapConfigProperty.AppendAllKeys | config/src/main/java/io/scalecube/config/MultimapConfigPropertyImpl.java:30 | after appending, the keys are the old keys plus the keys of the kept pairs |
| MultimapConfigProperty.AppendAllLists | config/src/main/java/io/scalecube/config/MultimapConfigPropertyImpl.java:30 | after appending, each key's list is its old list followed by the conversions of that key's values, in encounter order |
| MultimapConfigProperty.AppendAllTotal | config/src/main/java/io/scalecube/config/MultimapConfigPropertyImpl.java:30 | appending adds exactly one value per kept pair |
| MultimapConfigProperty.AppendAllFailure | config/src/main/java/io/scalecube/config/MultimapConfigPropertyImpl.java:30 | a failure reports the error of a kept value that fails, with every earlier kept value converting |
| MultimapConfigProperty.EntriesKeys | config/src/main/java/io/scalecube/config/MultimapConfigPropertyImpl.java:22-25 | the keys of the kept pairs are the keys of the `=`-tokens, plus the carried key if leading unkeyed tokens reuse it |
| MultimapConfigProperty.EntriesCount | config/src/main/java/io/scalecube/config/MultimapConfigPropertyImpl.java:19-31 | with no key in force, every token from the first keyed one on is kept; with a key in force, every token is kept |
| MultimapConfigProperty.EntriesSkipLeading | config/src/main/java/io/scalecube/config/MultimapConfigPropertyImpl.java:29 | unkeyed tokens before any key contribute no pair |
| MultimapConfigProperty.KeyAt | config/src/main/java/io/scalecube/config/MultimapConfigPropertyImpl.java:19-28 | the key in force at a token: the token's own key when it has one, and some key whenever a key was in force before the first token |
| MultimapConfigProperty.KeyAtSuffix | config/src/main/java/io/scalecube/config/MultimapConfigPropertyImpl.java:23-24 | once a keyed token is reached, the key in force at any later token does not depend on the key in force before it |
| MultimapConfigProperty.KeyAtShift | config/src/main/java/io/scalecube/config/MultimapConfigPropertyImpl.java:19-28 | dropping the first token leaves the key in force at every later token unchanged, when the look-back starts from the key in force after that token |
| MultimapConfigProperty.EntryAt | config/src/main/java/io/scalecube/config/MultimapConfigPropertyImpl.java:19-31 | with a key in force, token i is kept, paired with the key in force at i and its own value text |
| MultimapConfigProperty.EntriesAt | config/src/main/java/io/scalecube/config/MultimapConfigPropertyImpl.java:19-31 | with a key in force, every token is kept, and token i is paired with the key in force at i (the last keyed token up to i) and its own value text |
| MultimapConfigProperty.EntriesFromFirstKey | config/src/main/java/io/scalecube/config/MultimapConfigPropertyImpl.java:19-31 | from a null key, the kept pairs are those of the input cut at its first keyed token |
| MultimapConfigProperty.EntryAtStart | config/src/main/java/io/scalecube/config/MultimapConfigPropertyImpl.java:19-31 | from a null key, the j-th kept pair is token n + j (n the number of leading unkeyed tokens) with the key in force at it and its own value text |
| MultimapConfigProperty.EntriesAtStart | config/src/main/java/io/scalecube/config/MultimapConfigPropertyImpl.java:19-31 | from a null key, the kept pairs are exactly the tokens from the first keyed one on, each paired with the key in force at it and its own value text |
| MultimapConfigProperty.ValuesForContains | config/src/main/java/io/scalecube/config/MultimapConfigPropertyImpl.java:30 | every kept value text occurs in the list of values kept under its key |
| MultimapConfigProperty.MultimapCarryForward | config/src/main/java/io/scalecube/config/MultimapConfigPropertyImpl.java:19-31 | on success, every token from the first keyed one on converts, and its conversion is in the list of the key in force at it: its own key or the last key written before it |
| MultimapConfigProperty.MultimapSucceedsIff | config/src/main/java/io/scalecube/config/MultimapConfigPropertyImpl.java:29-30 | the multimap grammar succeeds if and only if every kept value converts; a failure carries the error of the first failing kept value, and no map is returned |
| MultimapConfigProperty.MultimapKeys | config/src/main/java/io/scalecube/config/MultimapConfigPropertyImpl.java:23-30 | on success the key set is exactly the set of texts before the first `=` of the tokens that contain `=` |
| MultimapConfigProperty.MultimapValues | config/src/main/java/io/scalecube/config/MultimapConfigPropertyImpl.java:20-31 | on success every key's list is non-empty and is the conversion, in encounter order, of the values kept under that key |
| MultimapConfigProperty.MultimapTotal | config/src/main/java/io/scalecube/config/MultimapConfigPropertyImpl.java:20-31 | on success the total number of values is the number of tokens from the first keyed token on |
| MultimapConfigProperty.MultimapSkipsLeadingTokens | config/src/main/java/io/scalecube/config/MultimapConfigPropertyImpl.java:29-31 | unkeyed tokens before the first key change nothing, whatever the parser would do on them |
| MultimapConfigProperty.MultimapUsesOnlyKeptValues | config/src/main/java/io/scalecube/config/MultimapConfigPropertyImpl.java:29-31 | two parsers that agree on the kept values give the same result: the parser is never called on a skipped token |
| MultimapConfigProperty.MapPropertyClass | config/src/main/java/io/scalecube/config/MultimapConfigPropertyImpl.java:60-80 | shape resolution succeeds if and only if the parser is canonical, then giving the multimap shape of its kind, and otherwise fails with an unsupported-parser error naming the multimap container and the parser |
| MultimapConfigProperty.ShapesDistinct | config/src/main/java/io/scalecube/config/MultimapConfigPropertyImpl.java:61-78 | a list shape is never a multimap shape, and distinct canonical parsers resolve to distinct multimap shapes |
| MultimapConfigProperty.NewMultimapProperty | config/src/main/java/io/scalecube/config/MultimapConfigPropertyImpl.java:37-48 | construction succeeds if and only if the parser is canonical; the property then carries its name, the multimap shape of the parser's kind, and the multimap grammar over that parser; otherwise it fails with the resolver's error |
| MultimapConfigProperty.MultimapProperty.Parse | config/src/main/java/io/scalecube/config/MultimapConfigPropertyImpl.java:47 | the grammar a multimap property installs is the multimap grammar over its parser: on success every key has a non-empty list |
| GrammarExamples.ListTrailingEmptyExample | config/src/main/java/io/scalecube/config/ListConfigPropertyImpl.java:14 | `"a,b,,"` parses to `["a","b"]` |
| GrammarExamples.ListDuplicatesExample | config/src/main/java/io/scalecube/config/ListConfigPropertyImpl.java:14 | `"b,a,b"` parses to `["b","a","b"]`: order and duplicates are kept |
| GrammarExamples.ListFailureExample | config/src/main/java/io/scalecube/config/ListConfigPropertyImpl.java:14 | with a digits-only parser, `"1,x,2"` fails with the error for `"x"` |
| GrammarExamples.CarryForwardExample | config/src/main/java/io/scalecube/config/MultimapConfigPropertyImpl.java:19-31 | `"a=1,2,3"` gives `{a: [1,2,3]}`: unkeyed tokens join the current key |
| GrammarExamples.RekeyExample | config/src/main/java/io/scalecube/config/MultimapConfigPropertyImpl.java:24-30 | `"a=1,b=2,a=3"` gives `{a: [1,3], b: [2]}`: re-keying appends to the existing list |
| GrammarExamples.LeadingTokenExample | config/src/main/java/io/scalecube/config/MultimapConfigPropertyImpl.java:29-31 | with a digits-only parser, `"x,a=2"` gives `{a: [2]}`: the invalid leading token is never converted |
| GrammarExamples.FirstEqualsExample | config/src/main/java/io/scalecube/config/MultimapConfigPropertyImpl.java:21-25 | `"k=x=y"` gives `{k: ["x=y"]}`: only the first `=` separates key from value |

## Left out

- `AbstractSimpleConfigProperty` (lazy caching, reload invalidation, callbacks keyed by class) is not part of this model. Its `value()` is taken as an `Option` input to the read wrappers.
- `LoadedConfigProperty`, the property map and the callback map are registry plumbing owned elsewhere. The constructors keep only the name, the shape and the grammar.
- The concrete element parsers (`STRING_PARSER`, `DOUBLE_PARSER`, `LONG_PARSER`, `INT_PARSER`, `DURATION_PARSER`) are not part of this model. Number and duration parsing is left out, including floating point. An element parser is an abstract partial function tagged with its kind.
- Java reference-equality dispatch on parser instances is replaced by the `kind` tag. The marker classes become the `Shape` datatype, and their generic type arguments are not modelled.
  - So `DurationList` declaring itself a `List<Double>` (ListConfigPropertyImpl.java:69) has no counterpart. It has no behavioural effect.
- Exceptions become `Failure` values.
  - The message text of the unsupported-parser error (which embeds the parser's `toString`) is represented by the container and the parser kind.
  - The no-such-element message is represented by the property name.
- `HashMap` iteration order is left out: the result is a `map`, and no key order is claimed.
- ParseMultimap: builds the map as a value that the loop reassigns, rather than mutating a `HashMap` in place. `computeIfAbsent` inserts the key before the element parser runs, but on a parse failure the map is discarded, so this ordering is not observable.
- ListConfigProperty.ParseTokens: its own contract states only the length. The per-element and first-failure facts are the lemmas ParseTokensElementwise and ParseTokensFirstFailure.
