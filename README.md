# steamkit decoders in Dafny

This project models the in-memory text and binary decoders of the steamkit
Rust workspace, together with the encoders that sit beside them, and proves
properties of those models. The decoders cover the Valve KeyValues (VDF) text
format in its several generations, the SteamID codec, the VPK directory format
and the SteamLanguage enum/class definition files. There is one Dafny module
per source file:

| module | file | what it models |
|---|---|---|
| `KvParser` | `kv_parser.dfy` | steamkit-kv/src/parser.rs: the KeyValues grammar (blocks, scalars, quoted and unquoted strings, `[macro]` tags, `/` comments) producing the raw `Entry` tree |
| `KvLib` | `kv_lib.dfy` | steamkit-kv/src/lib.rs: the duplicate-key `merge` into an order-preserving `KeyValue` tree, path `get`/`get_mut`, and `FlatKeyValues` (a class over a path-to-leaf map) |
| `VdfToken` | `vdf_token.dfy` | steamkit-vdf/src/token.rs: the character-cursor tokenizer, as methods with loops proved against a token-stream function |
| `VdfNode` | `vdf_node.dfy` | steamkit-vdf/src/node.rs: the recursive-descent reader, as methods advancing an index into the token sequence, and dotted-path `lookup` |
| `VdfTypes` | `vdf_types.dfy` | steamkit-vdf/src/types.rs: first-match `get`/`get_mut`, all-match `get_all`/`get_all_mut`, and the `TryFrom<&Value>` conversions |
| `VdfNom` | `vdf_nom.dfy` | steamkit-vdf/src/lib.rs: the alternative scalar-entry parser |
| `LegacyParser` | `legacy_parser.dfy` | src/vdf/parser.rs: the legacy tokenizer and `KeyValues::parse` |
| `LegacyValue` | `legacy_value.dfy` | src/vdf/value/mod.rs: the `Value` map/string container and its bool codec |
| `LegacyVdf` | `legacy_vdf.dfy` | src/vdf.rs: the older `VDF` container and its bool codec |
| `LegacySer` | `legacy_ser.dfy` | src/vdf/ser.rs: the text serializer, a class with an output buffer and an indent counter |
| `SteamId` | `steam_id.dfy` | steamkit-util/src/id.rs: 64-bit packing and the `STEAM_X:Y:Z` and `[C:U:A]` text forms |
| `VpkParser` | `vpk_parser.dfy` | steamkit-vpk/src/parser.rs: header, length accessors, NUL-terminated strings, the directory tree and `lookup` |
| `VpkLib` | `vpk_lib.dfy` | steamkit-vpk/src/lib.rs: the second header decoder and the loop-driven tree reader |
| `LangParser` | `lang_parser.dfy` | steamkit-lang/src/parser.rs: enums, variants, classes, imports, documents |
| `LangBuildParser` | `lang_build_parser.dfy` | steamkit-lang/build/parser.rs: the build-time parser (enums and imports only) |
| `LangGenerator` | `lang_generator.dfy` | steamkit-lang/src/generator.rs: Rust source text for enums as `pub const` blocks, and `DataType` names |
| `LangBuildGenerator` | `lang_build_generator.dfy` | steamkit-lang/build/generator.rs: `unique_variants`, `convert_type`, the `bitflags!`/plain enum text and `Generator::to_string` |

Shared modules: `Wrappers` (`Option`, `Result`), `Text` (character classes,
Rust's `str::replace` and `trim`, decimal rendering and parsing), `IndexMaps`
(an `IndexMap` as a sequence of key/value pairs with unique keys, where
`insert` on an existing key replaces in place and `extend` inserts pair by
pair), `Nom` (a cursor result with the three outcomes of a nom parser: done,
recoverable error, and fatal failure after `cut`) and `Bytes` (little-endian
integers and UTF-8 decoding).

Parsers are written over a position in the input: a parser function takes the
whole input and a start position and returns the end position with its value.
Properties are stated in three places: the contract of a `...At` parser says
exactly when it succeeds and what it reads from the text it consumes; where
that contract would be too heavy to check together with the body, a `...Read`
or `...Fields` lemma beside it says the same; and a `...On` lemma or a
round-trip lemma says that text of the documented shape is read back as the
value it was written from. Where the source appends to a buffer or mutates a cursor in a
loop, the model is a class or a method with a loop, proved against a function
that states the result, and the properties are proved about that function.

## Model

| member | source | states |
|---|---|---|
| KvParser.Comment | steamkit-kv/src/parser.rs:25-27 | a comment starts with a `/`, consumes at least that `/` and stays within the input |
| KvParser.CommentRead | steamkit-kv/src/parser.rs:25-27 | a comment is read exactly when a `/` stands at the cursor and its line is not ended by a lone CR; it runs over no CR or LF and stops at the end of the input, at an LF or at a CR LF |
| KvParser.Unquoted | steamkit-kv/src/parser.rs:29-31 | an unquoted string parses exactly when the next character is not a quote, brace, CR, LF, tab or space, and it is the longest run of such characters |
| KvParser.EscapedEnd | steamkit-kv/src/parser.rs:37 | `escaped` never moves backwards or past the input |
| KvParser.EscapedEndSound | steamkit-kv/src/parser.rs:37 | what `escaped` accepts is a well-escaped body that ends at a quote or at the end of the input |
| KvParser.EscapedEndComplete | steamkit-kv/src/parser.rs:37 | every well-escaped body followed by a quote, or reaching the end, is read whole by `escaped` |
| KvParser.Quoted | steamkit-kv/src/parser.rs:33-42 | a quoted string never fails fatally and consumes at least its two quotes |
| KvParser.QuotedSpec | steamkit-kv/src/parser.rs:33-42 | a quoted string is read exactly when the text is a quote, a body with no raw quote whose escapes are only `\"`, `\n`, `\t`, `\\` (raw line breaks allowed), and a quote; `""` is the empty string |
| KvParser.QuotedSound | steamkit-kv/src/parser.rs:33-42 | what is read is a well-escaped body between two quotes |
| KvParser.QuotedComplete | steamkit-kv/src/parser.rs:33-42 | every well-escaped body between two quotes is read |
| KvParser.Str | steamkit-kv/src/parser.rs:51-53 | `string` never fails fatally and consumes at least one character |
| KvParser.ParseMacro | steamkit-kv/src/parser.rs:44-49 | a tag parses exactly when a `[`, one or more characters other than `[`, `]` and LF, and a `]` follow; its text is what lies between the brackets |
| KvParser.ParseMacroRead | steamkit-kv/src/parser.rs:44-49 | a tag is read exactly when a `[`, at least one character other than `[`, `]` and LF, and a `]` follow |
| KvParser.OptMacro | steamkit-kv/src/parser.rs:60 | an absent tag consumes nothing |
| KvParser.OptMacroRead | steamkit-kv/src/parser.rs:60 | a tag is taken exactly when one or more spaces or tabs are followed by a bracketed tag; it is then that tag's text and the entry goes on after its `]` |
| KvParser.KeyValueString | steamkit-kv/src/parser.rs:55-75 | a scalar entry never fails fatally, consumes input and holds a string value; its key, separator, unescaped value, tag and end are stated by `KvParser.KeyValueStringRead` |
| KvParser.KeyValueStringRead | steamkit-kv/src/parser.rs:55-75 | a scalar entry is read exactly when a key, a space or tab, and a value string follow; it holds the raw key, the unescaped value and the optional tag, and ends where that tag ends, or after the value when there is none |
| KvParser.UnescapeNoBackslash | steamkit-kv/src/parser.rs:64-71 | a value without backslashes is unchanged by the replace chain |
| KvParser.UnescapeEscapedBackslashThenN | steamkit-kv/src/parser.rs:64-71 | the chain replaces `\n` before `\\`, so the raw text `\\n` decodes to a backslash followed by a line feed |
| KvParser.WhitespaceNewline | steamkit-kv/src/parser.rs:77-79 | a line break consumes at least one character and never reads past the input |
| KvParser.WhitespaceNewlineRead | steamkit-kv/src/parser.rs:77-79 | every line break, comment included, holds exactly one line feed |
| KvParser.LineFeedThenSpaces | steamkit-kv/src/parser.rs:78 | a line ending after a stretch without line feeds, and the spaces after it, hold exactly one line feed |
| KvParser.LineFeedAt | steamkit-kv/src/parser.rs:77-79 | a line feed not followed by a space or tab is exactly one line break |
| KvParser.ManyNewlines | steamkit-kv/src/parser.rs:88 | `many0(whitespace_newline)` stops where no further line break parses |
| KvParser.SomeNewlines | steamkit-kv/src/parser.rs:99 | `many1(whitespace_newline)` succeeds exactly when one line break parses, and then agrees with `many0` |
| KvParser.KeyValueMap | steamkit-kv/src/parser.rs:81-96 | a block entry consumes input and holds a map |
| KvParser.Braces | steamkit-kv/src/parser.rs:86-88 | the braces part of a block never fails fatally and consumes input |
| KvParser.Body | steamkit-kv/src/parser.rs:98-100 | the block body never fails fatally, and a body that consumes nothing is empty |
| KvParser.BodyRest | steamkit-kv/src/parser.rs:99 | the rest of `separated_list0` never fails fatally, and when it consumes nothing it holds no entries |
| KvParser.KeyValue | steamkit-kv/src/parser.rs:102-104 | an entry never fails fatally and consumes at least one character; which alternative it is (the block first, the scalar only when no block parses) is the helper lemma `KeyValueAlt` |
| KvParser.OpensBlockRead | steamkit-kv/src/parser.rs:86 | the opening of a block is one line break, `{` and one line break, each line break holding exactly one line feed |
| KvParser.KeyValueMapRead | steamkit-kv/src/parser.rs:81-96 | a block entry is exactly a key, an optional tag, one line break, `{`, one line break, the body, any line breaks and `}`; it holds the key, the body's entries and the tag, and ends after the `}` (proved from the helper lemmas `KeyValueMapParts` and `BracesShape`) |
| KvParser.BodyRestRead | steamkit-kv/src/parser.rs:99 | the rest of `separated_list0` is exactly a chain of entries, each after one or more line breaks, that stops where no line break follows or no entry follows the line breaks |
| KvParser.BodyRead | steamkit-kv/src/parser.rs:98-100 | a body is exactly either no entry at all, or a first entry followed by that chain |
| KvParser.BodyLaid | steamkit-kv/src/parser.rs:86-100 | children laid out one per line and then LF and `}`: the body holds exactly those children and the line breaks after it stop at the `}` |
| KvParser.BracesLaid | steamkit-kv/src/parser.rs:86-88 | read-back: LF, `{`, LF, any children that are each an entry where they stand, one per line, then LF and `}` is a braces part holding exactly those children, in order, with no tag read before it, ending after the `}` |
| KvParser.BlockFromBraces | steamkit-kv/src/parser.rs:81-104 | read-back: a key with no tag followed by a braces part is the block entry holding the key and the braces' entries, and `key_value` takes it as that block |
| KvParser.CloseBraceStops | steamkit-kv/src/parser.rs:98-100 | at a `}` the body is empty and no line break is consumed |
| KvParser.EmptyBraces | steamkit-kv/src/parser.rs:86-88 | `\n{\n}` after a key is a block with no entries |
| KvParser.TagLikeScalar | steamkit-kv/src/parser.rs:55-61 | `k [m]` alone is a scalar whose value is the unquoted string `[m]`, since the value comes before any tag |
| KvParser.BlockBeforeScalar | steamkit-kv/src/parser.rs:102-104 | a block is tried first: followed by braces, `k [m]` is a block tagged `m` |
| KvParser.BraceOnKeyLineRejected | steamkit-kv/src/parser.rs:81-96 | `"k" {` on one line is not an entry |
| KvParser.BlankLineBeforeBraceRejected | steamkit-kv/src/parser.rs:86 | a blank line between a block's key and its `{` is rejected |
| IndexMaps.IndexOf | steamkit-kv/src/lib.rs:39 | the position of a key is the first pair that has it, and there is none exactly when no pair has it |
| IndexMaps.Get | steamkit-kv/src/lib.rs:90 | `IndexMap::get` finds a value exactly when the key is present |
| IndexMaps.Insert | steamkit-kv/src/lib.rs:40-46 | `insert` keeps the length for a present key and adds one pair for a new key |
| IndexMaps.GetInsert | steamkit-kv/src/lib.rs:40-46 | after `insert` the key has the new value and every other key keeps its value |
| IndexMaps.KeysInsert | steamkit-kv/src/lib.rs:40-46 | after `insert` a present key keeps its position and a new key comes last |
| IndexMaps.InsertUnique | steamkit-kv/src/lib.rs:40-46 | `insert` keeps keys unique |
| IndexMaps.GetAt | steamkit-kv/src/lib.rs:90 | with unique keys, the pair at any position is the one found by its key |
| IndexMaps.ExtendUnique | steamkit-kv/src/lib.rs:54 | `extend` keeps keys unique |
| IndexMaps.GetExtend | steamkit-kv/src/lib.rs:54 | after `extend` a key of the other map has its value there, and any other key keeps its value |
| IndexMaps.KeysExtendPrefix | steamkit-kv/src/lib.rs:54 | after `extend` the old keys keep their order at the front |
| KvLib.MergeEntries | steamkit-kv/src/lib.rs:29-64 | the loop of `merge` computes the fold of one step per entry: a new key is inserted, a later string overwrites, a later map extends an existing map and replaces an existing string |
| KvLib.StepFacts | steamkit-kv/src/lib.rs:38-60 | one step keeps keys unique, appends only a new key, and changes only the value at the entry's key, to the combination of the old and new values |
| KvLib.MergeUnique | steamkit-kv/src/lib.rs:29-64 | `merge` leaves every key once |
| KvLib.MergeKeys | steamkit-kv/src/lib.rs:29-64 | the keys of `merge`'s result are the entries' keys in the order of their first occurrence |
| KvLib.MergeValues | steamkit-kv/src/lib.rs:38-60 | the value left at each key is the in-order fold over that key's entries: set, overwrite by a string, extend a map by a map, replace a string by a map |
| KvLib.ConvertValid | steamkit-kv/src/lib.rs:33-36 | the merged tree has unique keys at every level |
| KvLib.MergeIntoValid | steamkit-kv/src/lib.rs:29-64 | merging keeps unique keys at every level |
| KvLib.ExtendIsOneLevel | steamkit-kv/src/lib.rs:50-56 | a later block for an existing block overwrites inner keys in place, appends new inner keys, and replaces a same-named inner block whole |
| KvLib.ParseKeyValue | steamkit-kv/src/lib.rs:67-76 | on the trimmed input: a grammar failure is `Parse`, unconsumed text is `UnexpectedInput(rest)`, and otherwise a root map holding the one merged entry |
| KvLib.Get | steamkit-kv/src/lib.rs:78-104 | an empty path gives the node itself; a string with segments left, or a map without the first segment's key, gives `None`; one segment in a map gives the value under that key; `GetAppend` carries this down a longer path |
| KvLib.GetAppend | steamkit-kv/src/lib.rs:78-104 | looking up `p + q` is looking up `p` and then `q` from the node found |
| KvLib.GetMut | steamkit-kv/src/lib.rs:106-132 | `get_mut` answers with a location one step per segment |
| KvLib.GetMutAgrees | steamkit-kv/src/lib.rs:78-132 | `get_mut` finds a node exactly when `get` does, and it is the same node |
| KvLib.LeavesAllAppend | steamkit-kv/src/lib.rs:159-161 | the leaves of two runs of entries are the leaves of each, in order |
| KvLib.InsertAllAppend | steamkit-kv/src/lib.rs:156 | inserting two runs of pairs is inserting their concatenation |
| KvLib.InsertAllLookup | steamkit-kv/src/lib.rs:156 | after the inserts a path is present exactly when it was before or some pair has it, and it holds the string of the last such pair |
| KvLib.FlatKeyValues.constructor | steamkit-kv/src/lib.rs:142 | the flat map starts empty |
| KvLib.FlatKeyValues.Process | steamkit-kv/src/lib.rs:150-164 | `process` inserts every string leaf under the entry, in document order, keyed by its full key path |
| KvLib.FlatKeyValues.Get | steamkit-kv/src/lib.rs:171-189 | `get`/`get_str` find exactly the stored paths, with their strings |
| KvLib.FlatKeyValues.GetMut | steamkit-kv/src/lib.rs:191-201 | writing through `get_mut` succeeds exactly at a stored path, replaces only that string, and otherwise changes nothing |
| KvLib.ParseFlat | steamkit-kv/src/lib.rs:141-169 | the same errors as `KeyValue::parse`; otherwise the leaves of the raw, unmerged entry, a later leaf at the same path winning |
| KvLib.SampleMergedLookups | steamkit-kv/src/lib.rs:208-230 | merging the entry tree of the crate's parse test, written out by hand rather than parsed from the test's text, puts `value1` at `key1/key2` and `value2` at `key1/key3/key4` |
| KvLib.SampleFlatLookups | steamkit-kv/src/lib.rs:232-248 | the flat view of that same hand-written entry tree, not parsed from the flat test's text, has the two leaves under the same paths |
| KvLib.FlatKeepsReplacedBlock | steamkit-kv/src/lib.rs:141-169 | when a block is later replaced by a string of the same name, the merged tree loses the block's paths but the flat view keeps them |
| VdfToken.Unescaped | steamkit-vdf/src/token.rs:131-137 | exactly `\\`, `n`, `t` and `"` are accepted after a backslash |
| VdfToken.NewLineEnd | steamkit-vdf/src/token.rs:54-65 | a newline token is an optional CR and then an optional LF: it takes CR LF as one token, a lone LF as one character, and only those characters |
| VdfToken.CommentToken | steamkit-vdf/src/token.rs:98-114 | a comment runs up to, not including, the next LF or to the end of input; a CR just before that LF is dropped from its text, and kept at the end of input |
| VdfToken.QuotedFrom | steamkit-vdf/src/token.rs:122-148 | the body scan stops just after a closing quote; its only errors are `UnclosedQuote` and `BadEscape` of a character that is not one of the four escapes |
| VdfToken.QuotedToken | steamkit-vdf/src/token.rs:116-154 | a quoted string token consumes at least its two quotes; its errors are `UnclosedQuote` or `BadEscape` |
| VdfToken.QuotedFromPlain | steamkit-vdf/src/token.rs:122-148 | a body without backslashes or quotes is taken verbatim, raw line breaks included |
| VdfToken.ConditionToken | steamkit-vdf/src/token.rs:156-179 | a condition succeeds exactly when a `]` follows, and its text is everything between `[` and the first `]`; otherwise `UnclosedCondition` |
| VdfToken.NextToken | steamkit-vdf/src/token.rs:29-46 | each token consumes at least one character and is the kind its first character selects; `Syntax(c)` exactly for a character that starts no token; whitespace and unquoted strings are maximal runs |
| VdfToken.TokensFrom | steamkit-vdf/src/token.rs:29-49 | the scan keeps the tokens produced so far and adds at most one token per character |
| VdfToken.Tokenize | steamkit-vdf/src/token.rs:24-52 | there are never more tokens than characters |
| VdfToken.UseNewLine | steamkit-vdf/src/token.rs:54-65 | `use_new_line` stops where `NewLineEnd` says and holds the characters it passed |
| VdfToken.UseWhitespace | steamkit-vdf/src/token.rs:67-80 | `use_whitespace` takes the longest run of tabs and spaces |
| VdfToken.UseString | steamkit-vdf/src/token.rs:82-96 | `use_string` takes the longest run of `[A-Za-z0-9_-]` |
| VdfToken.UseComment | steamkit-vdf/src/token.rs:98-114 | `use_comment` builds the text and stops where `CommentToken` says |
| VdfToken.UseQuotedString | steamkit-vdf/src/token.rs:116-154 | the loop of `use_quoted_string` decodes the body as `QuotedToken` says, errors included |
| VdfToken.UseCondition | steamkit-vdf/src/token.rs:156-179 | the loop of `use_condition` gives the result `ConditionToken` says |
| VdfToken.Parse | steamkit-vdf/src/token.rs:24-52 | the loop of `Tokens::parse` gives the tokens, or the first error, that `Tokenize` says |
| VdfToken.TokensFromNoAdjacentRuns | steamkit-vdf/src/token.rs:67-96 | continuing a scan never puts two whitespace tokens or two unquoted-string tokens next to each other |
| VdfToken.TokenizeNoAdjacentRuns | steamkit-vdf/src/token.rs:67-96 | in any token list no two whitespace tokens and no two unquoted-string tokens are adjacent |
| VdfToken.CrLfIsOneToken | steamkit-vdf/src/token.rs:54-65 | `"\r\n"` is one newline token |
| VdfToken.LfCrIsTwoTokens | steamkit-vdf/src/token.rs:54-65 | `"\n\r"` is two newline tokens |
| VdfToken.CommentCarriageReturn | steamkit-vdf/src/token.rs:98-114 | a comment ended by CR LF loses the CR; a comment ended by the end of input keeps it |
| VdfToken.QuotedErrors | steamkit-vdf/src/token.rs:125-147 | an unknown escape is `BadEscape`; the end of input inside the quotes, even right after a backslash, is `UnclosedQuote` |
| VdfToken.SyntaxError | steamkit-vdf/src/token.rs:45 | a character that starts no token, such as `=`, is `Syntax` |
| VdfNode.LastWithKey | steamkit-vdf/src/node.rs:69 | the last node read with a key is one of the nodes and has that key; there is none exactly when no node has the key |
| VdfNode.CollectKeepsLast | steamkit-vdf/src/node.rs:66-69 | a level holds, for every key read, exactly the last node read with that key; nothing is merged |
| VdfNode.SkipTrivia | steamkit-vdf/src/node.rs:157-167 | `read_comment` passes exactly the whitespace, comment and newline tokens in front of it |
| VdfNode.SkipLineTrivia | steamkit-vdf/src/node.rs:96-101 | the `read_eol` loop passes exactly the whitespace and comment tokens in front of it |
| VdfNode.ReadWhitespace | steamkit-vdf/src/node.rs:75-91 | answers `true` and consumes one token exactly at a whitespace token; when optional, never fails and consumes nothing otherwise; when required, fails with `EndOfFile` or `UnexpectedToken` |
| VdfNode.ReadEolSpec | steamkit-vdf/src/node.rs:93-109 | after whitespace and comments, takes one newline token or accepts the end of the tokens; any other token fails as unexpected |
| VdfNode.ReadString | steamkit-vdf/src/node.rs:111-120 | succeeds exactly at a quoted or unquoted string token and returns its text; otherwise `EndOfFile` or `UnexpectedToken` |
| VdfNode.ValueAfterKey | steamkit-vdf/src/node.rs:176-178 | a scalar value exists exactly when whitespace and then a string token follow the key; a failed read is dropped after consuming the whitespace |
| VdfNode.ConditionAfterValue | steamkit-vdf/src/node.rs:183-188 | a condition is taken exactly when whitespace and then a condition token follow the value |
| VdfNode.NodeAt | steamkit-vdf/src/node.rs:169-204 | a node consumes tokens and ends at a newline or at the end of the tokens; only a scalar can carry a condition |
| VdfNode.GroupAt | steamkit-vdf/src/node.rs:129-155 | a group consumes tokens and ends at a newline or at the end of the tokens |
| VdfNode.GroupBody | steamkit-vdf/src/node.rs:140-152 | the group loop ends after a `}` at a newline or at the end of the tokens |
| VdfNode.GroupBodyAtEnd | steamkit-vdf/src/node.rs:143-148 | at a `}` the end of line after it decides the group's result |
| VdfNode.GroupBodyNode | steamkit-vdf/src/node.rs:150-151 | at anything else a node is read, and an error in it ends the group |
| VdfNode.NodeRead | steamkit-vdf/src/node.rs:169-204 | a failed key is the node's error; with a value, the node is the scalar with its optional condition exactly when the end of line is read, and otherwise has the end of line's error; without one, the node is the block holding the group after the line end, and otherwise has the line end's or the group's error |
| VdfNode.GroupRead | steamkit-vdf/src/node.rs:129-136 | after an optional whitespace token a group needs a `{`: no token is `EndOfFile`, another token is `UnexpectedToken` of it; after the `{` it is what the loop gives, its level being the nodes read, the last of a key kept |
| VdfNode.GroupBodyExtends | steamkit-vdf/src/node.rs:138-152 | the group loop only appends: a successful read extends the nodes it started with |
| VdfNode.ReadComment | steamkit-vdf/src/node.rs:157-167 | the loop of `read_comment` stops where `SkipTrivia` says |
| VdfNode.ReadEol | steamkit-vdf/src/node.rs:93-109 | the loop of `read_eol` gives what `ReadEolSpec` says |
| VdfNode.ReadNode | steamkit-vdf/src/node.rs:169-204 | `read_node` gives what `NodeAt` says, errors included |
| VdfNode.ReadGroup | steamkit-vdf/src/node.rs:129-136 | `read_group` gives what `GroupAt` says, errors included |
| VdfNode.ReadGroupItems | steamkit-vdf/src/node.rs:138-154 | the loop of `read_group` fills the level's map with the nodes `GroupBody` reads, a later key replacing an earlier one |
| VdfNode.ReadRoot | steamkit-vdf/src/node.rs:58-73 | `read_root` gives what `RootAt` says: nodes until the tokens run out |
| VdfNode.SplitOnce | steamkit-vdf/src/node.rs:43 | `split_once(".")`: the head has no dot and, when a rest exists, the path is head, dot, rest |
| VdfNode.Lookup | steamkit-vdf/src/node.rs:42-56 | the only error of `lookup` is `Lookup` |
| VdfNode.SplitOnceJoin | steamkit-vdf/src/node.rs:43 | splitting a dotted path of dot-free keys gives the first key and the rest |
| VdfNode.LookupJoin | steamkit-vdf/src/node.rs:42-56 | the dotted path `k1.k2.…` looks up `k1`, then `k2` inside its map, and so on: a missing key is `Ok(None)` and a string node with path left is `Err(Lookup)` |
| VdfNode.LookupTrailingDot | steamkit-vdf/src/node.rs:43-54 | a trailing dot is ignored: `k.` finds what `k` finds |
| VdfNode.ScalarWithCondition | steamkit-vdf/src/node.rs:176-191 | `k "v" [$X]` and a newline is a scalar with its condition |
| VdfNode.ConditionNeedsWhitespace | steamkit-vdf/src/node.rs:183-190 | a condition directly after the value is an unexpected token |
| VdfNode.BraceOnKeyLine | steamkit-vdf/src/node.rs:193-196 | `k {` on one line is an unexpected `{` |
| VdfNode.UnclosedGroup | steamkit-vdf/src/node.rs:140-152 | running out of tokens before `}` is `EndOfFile` |
| VdfNode.OneScalarGroup | steamkit-vdf/src/node.rs:129-155 | a group of one scalar line holds that one node |
| VdfNode.SmallBlock | steamkit-vdf/src/node.rs:193-196 | a key, its line end and a group make a block node |
| VdfNode.ScalarLineNode | steamkit-vdf/src/node.rs:176-191 | a line `key value` ending in a newline is one scalar node without a condition |
| VdfNode.DuplicateKeyReplaces | steamkit-vdf/src/node.rs:66-69 | a second node with the same key at the same level replaces the first |
| VdfTypes.Find | steamkit-vdf/src/types.rs:127 | `find` by name gives the position of the first entry with that name, and nothing exactly when no entry has it |
| VdfTypes.Get | steamkit-vdf/src/types.rs:122-138 | an empty path, or a first key no entry has, finds nothing; the first entry with the first key is taken: with one key its value is the result, and with path left only a group is descended into, any other value giving nothing |
| VdfTypes.GetMut | steamkit-vdf/src/types.rs:140-156 | `get_mut` answers with one entry position per key of the path |
| VdfTypes.GetMutAgrees | steamkit-vdf/src/types.rs:122-156 | `get_mut` finds something exactly when `get` does, and the value at the place it finds is the one `get` returns |
| VdfTypes.GetAll | steamkit-vdf/src/types.rs:158-176 | the loop of `get_all` collects, in entry order, the values of every entry of the name, descending into groups when path is left |
| VdfTypes.GetAllFromAppend | steamkit-vdf/src/types.rs:161-173 | what `get_all` collects from two runs of entries is what it collects from each, one after the other |
| VdfTypes.GetInGetAll | steamkit-vdf/src/types.rs:122-176 | whatever `get` returns is among the values `get_all` returns |
| VdfTypes.GetAllSingle | steamkit-vdf/src/types.rs:122-176 | with one key, `get_all` is non-empty exactly when `get` finds something, and its first value is that one |
| VdfTypes.FindPrefix | steamkit-vdf/src/types.rs:127 | a match among the first entries is the first match of all of them |
| VdfTypes.FirstMatchOnly | steamkit-vdf/src/types.rs:127-137 | `get` follows only the first entry of a name: a later group of that name is reached by `get_all` but not by `get` |
| VdfTypes.LocationsAgree | steamkit-vdf/src/types.rs:158-196 | `get_all_mut` reaches one place per value `get_all` returns, in the same order, and the value at each place is that value |
| VdfTypes.EntryLocationsAgree | steamkit-vdf/src/types.rs:184-192 | the same, for the part one entry contributes |
| VdfTypes.AtPrefix | steamkit-vdf/src/types.rs:178-196 | a place among the first entries holds the same value in the whole group |
| VdfTypes.AtStep | steamkit-vdf/src/types.rs:151-152 | stepping into an entry's group is one level of the walk |
| VdfTypes.NestedKeyExample | steamkit-vdf/src/types.rs:199-216 | `get(["key", "key"])` in `key { key "hello" }` converts to the `str` "hello" |
| VdfTypes.TryFrom | steamkit-vdf/src/types.rs:46-101 | a conversion succeeds exactly when the value has the target's variant, and then gives that value; otherwise `InvalidConversion` names the expected variant and the target type (`f32`, `i32`, `bool`, `String`, `str`, `Group`) |
| VdfTypes.ErrorNamesExpectedVariant | steamkit-vdf/src/types.rs:54-57 | converting a string to `i32` reports the variant `Int`, the one expected, not `String` |
| VdfNom.Quoted | steamkit-vdf/src/lib.rs:44-52 | fails without consuming exactly when there is no opening quote; a success ends at a closing quote and returns the text between the quotes, at least one character |
| VdfNom.Str | steamkit-vdf/src/lib.rs:58-60 | a quoted string when one starts here, otherwise an unquoted run; a fatal quoted string is fatal and is not retried as unquoted |
| VdfNom.Macro | steamkit-vdf/src/lib.rs:54-56 | reads the same `[…]` tag as the KeyValues parser, but its text keeps the brackets |
| VdfNom.KeyValueString | steamkit-vdf/src/lib.rs:62-83 | a success is a key, blanks, and an unescaped value followed by at least one blank; a fatal result comes from the key or the value |
| VdfNom.KeyValueStringRead | steamkit-vdf/src/lib.rs:62-83 | a line is read exactly when blanks, a key, a blank, blanks, a value and a blank follow; it is fatal exactly when the key, or the value after a key and a blank, is fatal; a read line holds the key, the unescaped value and the bracketed tag, and ends after the optional comment |
| VdfNom.QuotedAgrees | steamkit-vdf/src/lib.rs:44-52 | apart from `""`, a quoted string reads exactly as in the KeyValues grammar |
| VdfNom.QuotedCut | steamkit-vdf/src/lib.rs:47 | after an opening quote, the result is fatal exactly when no non-empty well-escaped body and closing quote follow |
| VdfNom.EmptyQuotedIsFatal | steamkit-vdf/src/lib.rs:47-48 | `""` is fatal here, where the KeyValues grammar reads it as the empty string |
| VdfNom.LeadingBlanksSkipped | steamkit-vdf/src/lib.rs:65 | starting on leading blanks or after them parses the same line |
| VdfNom.ValueNeedsTrailingSpace | steamkit-vdf/src/lib.rs:66-67 | `k v` alone is rejected, because a blank must follow the value; `k v ` is accepted |
| VdfNom.TagAndComment | steamkit-vdf/src/lib.rs:67-68 | `k v [m] /c` keeps the tag `[m]` with its brackets and consumes the comment |
| LegacyParser.NextToken | src/vdf/parser.rs:50-66 | one step consumes at least one character and gives a token of the kind its first character selects, never a condition; the step is `Syntax(c)` exactly when `c` starts no token |
| LegacyParser.TokensFrom | src/vdf/parser.rs:50-69 | the loop keeps the tokens already read and adds at most one token per character |
| LegacyParser.Tokenize | src/vdf/parser.rs:45-72 | a tokenization has no more tokens than the text has characters |
| LegacyParser.Parse | src/vdf/parser.rs:45-72 | the loop of `Tokens::parse` gives what `Tokenize` says, errors included |
| LegacyParser.TokensFromAgree | src/vdf/parser.rs:50-174 | from any position with no `[` after it, the loop gives the same tokens and errors as the newer tokenizer |
| LegacyParser.TokenizeAgrees | src/vdf/parser.rs:45-174 | on text without `[` this tokenizer and the newer one give the same tokens and the same errors |
| LegacyParser.BracketIsSyntaxError | src/vdf/parser.rs:65 | `[a]` is `Syntax('[')` here, while the newer tokenizer reads a condition |
| LegacyParser.Cleared | src/vdf/parser.rs:189-195 | `clear` empties an array or a map and leaves an entry as it is |
| LegacyParser.KeyValues.constructor | src/vdf/parser.rs:205-210 | starts with no tokens and an empty map as root |
| LegacyParser.KeyValues.DecodeTokens | src/vdf/parser.rs:220-224 | always succeeds; clears the root and leaves the tokens unchanged |
| LegacyParser.ParseKeyValues | src/vdf/parser.rs:212-218 | fails exactly when the tokenizer fails, with its error; otherwise holds the tokens and an empty map as root |
| LegacyValue.Get | src/vdf/value/mod.rs:16-24 | a string has no children; in a map a child is found exactly when the key is present, and it is the value of the first pair with that key |
| LegacyValue.GetMut | src/vdf/value/mod.rs:26-34 | `get_mut` finds a place exactly when `get` finds a value, and the place holds that key and that value |
| LegacyValue.Insert | src/vdf/value/mod.rs:36-46 | answers `true` exactly on a map; a string is left unchanged; a map grows by one entry exactly when the key is new |
| LegacyValue.Set | src/vdf/value/mod.rs:55-64 | answers `true` exactly on a string, whose text becomes the new text; a map is left unchanged |
| LegacyValue.Index | src/vdf/value/mod.rs:83-96 | indexing a map by a key it holds gives what `get` finds; the panics on a string or a missing key are the precondition |
| LegacyValue.IndexMut | src/vdf/value/mod.rs:98-109 | the mutable index is the place `get_mut` finds, under the same precondition |
| LegacyValue.BoolToString | src/vdf/value/mod.rs:139-146 | `true` is written `1` and `false` is written `0` |
| LegacyValue.BoolFromStr | src/vdf/value/mod.rs:157-168 | exactly `1` and `0` parse |
| LegacyValue.BoolRoundTrip | src/vdf/value/mod.rs:139-168 | a written bool reads back, and the only text that reads as a bool is the text written for it |
| LegacyValue.NatToStringInjective | src/vdf/value/mod.rs:76-77 | distinct indices have distinct decimal keys |
| LegacyValue.IndexedUnique | src/vdf/value/mod.rs:73-81 | the keys built from a vector are unique, so no insertion replaces an earlier element |
| LegacyValue.FromVec | src/vdf/value/mod.rs:73-81 | the loop of `From<Vec<Value>>` builds a valid map holding each element under its index, in order |
| LegacyValue.FromVecGet | src/vdf/value/mod.rs:73-81 | element `k` is found under the key `k` |
| LegacyValue.NothingInNewOrString | src/vdf/value/mod.rs:11-24 | a new value and a string value hold no key |
| LegacyValue.InsertValid | src/vdf/value/mod.rs:36-46 | `insert` keeps a map's keys unique |
| LegacyValue.GetAfterInsert | src/vdf/value/mod.rs:16-46 | after `insert` the key finds the new value and every other key finds what it found before |
| LegacyValue.InsertKeepsOrder | src/vdf/value/mod.rs:42 | an existing key keeps its position and a new key goes last |
| LegacyValue.AssignIsInsert | src/vdf/value/mod.rs:26-46 | writing through the reference `get_mut` returns is the same as `insert` on that key |
| LegacyValue.ToAfterSet | src/vdf/value/mod.rs:48-64 | after `set` on a string, `to` parses the new text |
| LegacyValue.BoolValueRoundTrip | src/vdf/value/mod.rs:48-53 | a bool stored as its text reads back with `to::<bool>` |
| LegacyVdf.Get | src/vdf.rs:16-22 | a `Value` has no children; in `Keys` a child is found exactly when the key is present, and it is the value of the first pair with that key |
| LegacyVdf.GetMut | src/vdf.rs:24-30 | `get_mut` finds a place exactly when `get` finds a value, and the place holds that key and that value |
| LegacyVdf.Insert | src/vdf.rs:32-41 | on `Keys` (a `Value` is the panic, excluded), the map grows by one entry exactly when the key is new |
| LegacyVdf.Index | src/vdf.rs:67-82 | indexing `Keys` by a key they hold gives what `get` finds; the two panics are the precondition |
| LegacyVdf.IndexMut | src/vdf.rs:84-97 | the mutable index is the place `get_mut` finds |
| LegacyVdf.FromVec | src/vdf.rs:57-65 | the loop of `From<Vec<VDF>>` builds valid `Keys` holding each element under its index, in order |
| LegacyVdf.FromVecGet | src/vdf.rs:57-65 | element `k` is found under the key `k` |
| LegacyVdf.GetAfterInsert | src/vdf.rs:16-41 | `insert` keeps the keys unique; afterwards the key finds the new value and every other key finds what it found before |
| LegacyVdf.InsertKeepsOrder | src/vdf.rs:38 | an existing key keeps its position and a new key goes last |
| LegacyVdf.BoolValueRoundTrip | src/vdf.rs:127-156 | a bool stored as its text reads back with `to::<bool>` |
| LegacyVdf.NothingInNewOrValue | src/vdf.rs:11-22 | a new `VDF` and a `Value` hold no key |
| LegacySer.EscapeChar | src/vdf/ser.rs:84-88 | one character becomes one or two characters |
| LegacySer.EscapeCharDecodes | src/vdf/ser.rs:84-88 | a character is written as itself only when it is neither `\` nor `"`; otherwise as `\` and a letter the tokenizers unescape back to it |
| LegacySer.ReplaceAppend | src/vdf/ser.rs:84-88 | replacing one character distributes over concatenation |
| LegacySer.EscapedChar | src/vdf/ser.rs:84-88 | the four replacements, applied in order to one character, give its escape |
| LegacySer.EscapedAppend | src/vdf/ser.rs:84-88 | the chain of replacements distributes over concatenation |
| LegacySer.EscapedIsEscape | src/vdf/ser.rs:84-88 | because `\` is replaced first, the chain escapes each character on its own and no replacement is undone or doubled by a later one |
| LegacySer.EscapedAtOf | src/vdf/ser.rs:84-90 | escaped text, wherever it sits, is the escapes of its characters one after another |
| LegacySer.DecodeEscapeChar | src/vdf/ser.rs:84-88 | the quoted-string scanner reads the escape of a character back to that character |
| LegacySer.DecodeEscapes | src/vdf/ser.rs:84-88 | the scanner reads the escapes of a string back to the string |
| LegacySer.QuoteCloses | src/vdf/ser.rs:90 | the closing quote ends the quoted string |
| LegacySer.QuotedRoundTrip | src/vdf/ser.rs:83-92 | what `serialize_str` writes for any string reads back, with either tokenizer, as one quoted-string token holding that string |
| LegacySer.QuotedScan | src/vdf/ser.rs:83-92 | the quoted-string scanner consumes exactly the written text |
| LegacySer.OpenMap | src/vdf/ser.rs:180-192 | `serialize_map` goes one level deeper |
| LegacySer.EndMap | src/vdf/ser.rs:240-245 | `end` goes one level up, never below zero |
| LegacySer.SerKeepsIndent | src/vdf/ser.rs:180-266 | a successful serialization ends at the indent it started at: every `serialize_map` is matched by one `end` |
| LegacySer.EntryKeepsIndent | src/vdf/ser.rs:221-238 | a successful key or value leaves the indent as it was |
| LegacySer.EntriesKeepIndent | src/vdf/ser.rs:221-266 | the entries and `end` of a block opened one level deeper come back to the level below it |
| LegacySer.NestedStructIsMap | src/vdf/ser.rs:194-204 | below the top level a struct is written exactly as a map with its field names as string keys |
| LegacySer.EntriesStrKeys | src/vdf/ser.rs:252-266 | `serialize_field` is `serialize_key` of the name and `serialize_value` of the value |
| LegacySer.NestedNewtypeIsTransparent | src/vdf/ser.rs:126-139 | below the top level a newtype struct writes only its content |
| LegacySer.UnsupportedWritesNothing | src/vdf/ser.rs:94-215 | bytes, options, unit, unit structs, newtype variants, sequences, tuples and struct variants fail with the kind they name and write nothing |
| LegacySer.StructOneField | src/vdf/ser.rs:10-21 | a top-level struct with one string field is its quoted name, a line break, `{`, one tab-indented line with the quoted field name, a tab and the quoted value, and `}` |
| LegacySer.Serializer.constructor | src/vdf/ser.rs:14-17 | an empty output at indent zero |
| LegacySer.Serializer.SerializeStr | src/vdf/ser.rs:83-92 | succeeds and appends the escaped string between quotes |
| LegacySer.Serializer.SerializeBool | src/vdf/ser.rs:35-37 | writes `"1"` or `"0"` |
| LegacySer.Serializer.SerializeInt | src/vdf/ser.rs:39-69 | writes the decimal rendering as a string |
| LegacySer.Serializer.SerializeChar | src/vdf/ser.rs:79-81 | writes the one-character string |
| LegacySer.Serializer.SerializeUnitVariant | src/vdf/ser.rs:117-124 | writes the variant name as a string |
| LegacySer.Serializer.Refuse | src/vdf/ser.rs:94-215 | fails with `UnsupportedType` of the shape's kind and writes nothing |
| LegacySer.Serializer.SerializeNewtypeStruct | src/vdf/ser.rs:126-139 | at the top level the quoted name and a tab, then the content |
| LegacySer.Serializer.SerializeMap | src/vdf/ser.rs:180-192 | drops one trailing tab, writes a line break, the indent and `{` and a line break, one level deeper |
| LegacySer.Serializer.SerializeStruct | src/vdf/ser.rs:194-204 | the quoted name at the top level, then a map block |
| LegacySer.Serializer.SerializeKey | src/vdf/ser.rs:221-229 | the indent, the key, and a tab unless the key failed |
| LegacySer.Serializer.SerializeFieldKey | src/vdf/ser.rs:252-262 | the indent, the quoted field name and a tab |
| LegacySer.Serializer.SerializeValue | src/vdf/ser.rs:231-238 | the value, and a line break unless it failed |
| LegacySer.Serializer.End | src/vdf/ser.rs:240-245 | one level up, saturating at zero, then the indent and `}` |
| LegacySer.Serializer.Serialize | src/vdf/ser.rs:23-266 | serializing a value leaves the state `Ser` describes and returns its result, for every shape |
| LegacySer.ToString | src/vdf/ser.rs:10-21 | the output of a fresh serializer, or the first error |
| SteamId.UniverseFrom | steamkit-util/src/id.rs:34-43 | `Universe::try_from`: 0 to 4 give the universe with that number; a larger number fails with `InvalidUniverse(n)` exactly when out-of-range numbers are not mapped to the default, and otherwise gives `Invalid` |
| SteamId.TypeFrom | steamkit-util/src/id.rs:45-60 | `Type::try_from`: 0 to 10 give the type with that number; a larger number fails with `InvalidType(n)` exactly when not lenient, and otherwise gives `Invalid` |
| SteamId.InstanceFrom | steamkit-util/src/id.rs:102-110 | `Instance::try_from`: 0 to 3 give the instance with that number; a larger number fails with `InvalidInstance(n)` exactly when not lenient, and otherwise gives `All` |
| SteamId.UniverseFromValue | steamkit-util/src/id.rs:34-43 | every universe's number converts back to that universe |
| SteamId.InstanceFromValue | steamkit-util/src/id.rs:102-110 | every instance's number converts back to that instance |
| SteamId.TypeToChar | steamkit-util/src/id.rs:62-80 | the type letter; fails with `MissingTypeChar(t)` exactly for `P2PSuperSeeder`; a letter is never `c` or `L` |
| SteamId.TypeFromChar | steamkit-util/src/id.rs:82-100 | `T`, `L` and `c` are exactly the letters that mean `Chat`; an unknown letter fails with `InvalidTypeChar(c)` |
| SteamId.TypeCharRoundTrip | steamkit-util/src/id.rs:62-100 | every type letter reads back as its own type |
| SteamId.ToU64Layout | steamkit-util/src/id.rs:219-226 | with an account below 2^32, `to_u64` is universe·2^56 + type·2^52 + instance·2^32 + account, and below 2^64 |
| SteamId.Unpack | steamkit-util/src/id.rs:196-200 | account, instance, type and universe read back from bits 0-31, 32-51, 52-55 and 56-63 of a packed value |
| SteamId.FromU64 | steamkit-util/src/id.rs:196-208 | a decoded id's account is the low 32 bits of the value |
| SteamId.FromU64ToU64 | steamkit-util/src/id.rs:196-226 | `from_u64(to_u64(id)) == Ok(id)` for every id whose account is below 2^32 |
| SteamId.FromAccountId | steamkit-util/src/id.rs:210-217 | a public, individual, desktop id holding the account |
| SteamId.Default | steamkit-util/src/id.rs:120-129 | the default id packs to 0 |
| SteamId.ToSteam2 | steamkit-util/src/id.rs:228-244 | fails with `IncompatibleVersion` exactly when the type is not `Individual` |
| SteamId.ToSteam3 | steamkit-util/src/id.rs:246-272 | fails exactly when the type is `P2PSuperSeeder` |
| SteamId.MatchSteam2 | steamkit-util/src/id.rs:8-9 | the Steam2 pattern: captures a digit, a `0`/`1` and a digit run, and the text is `STEAM_` followed by them with `:` between |
| SteamId.MatchSteam3 | steamkit-util/src/id.rs:10-11 | the Steam3 pattern: a letter, a digit 0-5 and a digit run, and the fourth capture, when present, starts with `:` |
| SteamId.ParseU64 | steamkit-util/src/id.rs:154 | `parse::<u64>` fails only with `ParseIntError` |
| SteamId.NotSteam2 | steamkit-util/src/id.rs:134-151 | a text that starts with `[` never matches the Steam2 pattern, so `from_str` tries Steam3 on it |
| SteamId.Steam2RoundTrip | steamkit-util/src/id.rs:134-150 | every individual desktop id outside the invalid universe reads back from its `to_steam2` text in either format: digit 0 becomes public and the account is 2·Z + Y |
| SteamId.Steam3RoundTrip | steamkit-util/src/id.rs:151-186 | an id whose Steam3 text has no instance field reads back from it when its instance is the one `from_str` assumes (desktop for `U`, otherwise all) |
| SteamId.Steam3InstanceRejected | steamkit-util/src/id.rs:157-159 | as written, every Steam3 text with an instance field, `to_steam3`'s own output included, fails with `ParseIntError` |
| SteamId.Steam3RoundTripCorrected | steamkit-util/src/id.rs:151-186 | with the instance field read without its `:`, every id whose Steam3 text has an instance field reads back from it |
| SteamId.DecimalRoundTrip | steamkit-util/src/id.rs:187-208 | an id whose account is below 2^32 reads back from the decimal text of its 64-bit value |
| SteamId.FromU64Example | steamkit-util/src/id.rs:279-289 | 76561198006409530 decodes to public, individual, desktop account 46143802 |
| SteamId.Steam2Example | steamkit-util/src/id.rs:291-306 | `STEAM_0:0:23071901` parses to account 46143802, which renders back as `STEAM_0:0:23071901` and `STEAM_1:0:23071901` |
| SteamId.Steam3Example | steamkit-util/src/id.rs:308-323 | `[U:1:46143802]` parses to account 46143802, which renders back as the same text |
| Bytes.LeU16 | steamkit-vpk/src/parser.rs:152 | `le_u16` reads a value below 2^16 |
| Bytes.LeU32 | steamkit-vpk/src/lib.rs:67 | `le_u32` reads a value below 2^32 |
| Bytes.LeU32OfBytes | steamkit-vpk/src/lib.rs:67 | `le_u32` reads back the value whose little-endian bytes were written, whatever surrounds them |
| Bytes.NulAt | steamkit-vpk/src/lib.rs:100 | `many_till(le_u8, tag(&[0]))` stops at the first zero byte at or after `i`, and fails exactly when there is none |
| Bytes.Utf8Decode | steamkit-vpk/src/lib.rs:102-108 | `String::from_utf8`: the text is never longer than the bytes and is empty exactly when they are |
| Bytes.DecodeEncodeChar | steamkit-vpk/src/lib.rs:102 | one character's UTF-8 encoding is one well-formed sequence that decodes back to the character, whatever follows it |
| Bytes.Utf8RoundTrip | steamkit-vpk/src/lib.rs:102 | decoding undoes UTF-8 encoding for every text |
| Bytes.Utf8DecodeAscii | steamkit-vpk/src/lib.rs:102 | ASCII bytes decode one character each, to the characters with the same codes |
| VpkParser.HeaderV2At | steamkit-vpk/src/parser.rs:109-118 | 16 bytes; fails exactly when they are missing, the archive MD5 length is not a multiple of 28 or the local MD5 length is not 48 |
| VpkParser.HeaderAt | steamkit-vpk/src/parser.rs:45-55 | a decoded header has the signature `0x55aa1234`, version 1 or 2, a version-2 part exactly in version 2 and a length of 12 or 28 bytes; a wrong signature or version fails |
| VpkParser.HeaderRoundTrip | steamkit-vpk/src/parser.rs:45-55 | every header the decoder accepts reads back from its little-endian bytes, whatever follows them |
| VpkParser.V2RoundTrip | steamkit-vpk/src/parser.rs:109-118 | every version-2 part that passes the checks reads back from its bytes |
| VpkParser.DataOffset | steamkit-vpk/src/parser.rs:62-70 | `data_offset` is the tree length plus 12 in version 1, plus 28 in version 2, and the tree length alone otherwise |
| VpkParser.V2Field | steamkit-vpk/src/parser.rs:72-106 | each length accessor returns the version-2 field when the version is 2 and the part is present, and 0 otherwise |
| VpkParser.DataOffsetOfParsed | steamkit-vpk/src/parser.rs:59-70 | for a decoded header, the data offset is the header's own length plus the tree length |
| VpkParser.LengthsOfParsed | steamkit-vpk/src/parser.rs:72-118 | a decoded version-1 header reports every version-2 length as 0; a version-2 header reports its fields, with a local MD5 length of 48 and an archive MD5 length divisible by 28 |
| VpkParser.CString | steamkit-vpk/src/parser.rs:167-177 | `cstring` consumes at least the NUL, and the string is empty exactly when the first byte is the NUL |
| VpkParser.CStringReadsToNul | steamkit-vpk/src/parser.rs:167-177 | `cstring` fails exactly when no NUL follows or the bytes before it are not UTF-8; otherwise it returns their text and stops after the first NUL |
| VpkParser.CStringRoundTrip | steamkit-vpk/src/parser.rs:167-177 | a text without NUL characters, written as UTF-8 and a NUL, reads back and the read stops after the NUL |
| VpkParser.DirectoryEntryAt | steamkit-vpk/src/parser.rs:148-159 | a directory entry is 18 fixed bytes followed by `preload_length` payload bytes; it fails exactly when those bytes are missing |
| VpkParser.NamesAt | steamkit-vpk/src/parser.rs:202 | the name list advances and holds only non-empty names |
| VpkParser.NamesEnd | steamkit-vpk/src/parser.rs:202 | the name list ends right after a zero byte, the empty name that closes it |
| VpkParser.DirsAt | steamkit-vpk/src/parser.rs:199-204 | the directory list advances and holds only non-empty directories |
| VpkParser.DirsEnd | steamkit-vpk/src/parser.rs:199-204 | the directory list ends right after a zero byte, the empty directory that closes it |
| VpkParser.ExtsAt | steamkit-vpk/src/parser.rs:196-207 | the extension list advances and holds only non-empty extensions |
| VpkParser.ExtsEnd | steamkit-vpk/src/parser.rs:196-207 | the extension list ends right after a zero byte, the empty extension that closes it |
| VpkParser.Path | steamkit-vpk/src/parser.rs:214-226 | the path is `dir/` (unless the directory is `" "`), the name (empty when `" "`), and `.ext` (unless the extension is `" "`) |
| VpkParser.InsertAllLastWins | steamkit-vpk/src/parser.rs:228 | a path is a key of the built map exactly when some file has it, and it maps to the entry of the last such file |
| VpkParser.InsertAllPaths | steamkit-vpk/src/parser.rs:228 | every stored entry records its own path |
| VpkParser.BuildTree | steamkit-vpk/src/parser.rs:209-233 | the three nested loops build the map that inserts every file, in tree order, under its path |
| VpkParser.InsertDirs | steamkit-vpk/src/parser.rs:212-230 | the directory loop inserts the files of every directory of the extension, in order |
| VpkParser.InsertNames | steamkit-vpk/src/parser.rs:213-229 | the name loop inserts each file under its path, a later file replacing an earlier one |
| VpkParser.Tree | steamkit-vpk/src/parser.rs:194-235 | `tree` never reads past its input |
| VpkParser.Limit | steamkit-vpk/src/parser.rs:179-192 | `limit(p, n)` succeeds exactly when `n` bytes remain and `p` accepts them, and it always advances by exactly `n` |
| VpkParser.ArchiveMd5EntryAt | steamkit-vpk/src/parser.rs:120-127 | an archive MD5 record is 28 bytes with a 16-byte checksum |
| VpkParser.ArchiveMd5sAt | steamkit-vpk/src/parser.rs:22-27 | `count` records take exactly 28·`count` bytes |
| VpkParser.LocalMd5At | steamkit-vpk/src/parser.rs:129-135 | the local MD5 block is exactly 48 bytes |
| VpkParser.SignatureAt | steamkit-vpk/src/parser.rs:137-146 | the signature block is two length-prefixed byte runs |
| VpkParser.Parse | steamkit-vpk/src/parser.rs:16-38 | a parsed pack has the right signature; version 1 has no MD5 or signature parts; version 2 has `archive_md5_length / 28` archive records when that length is non-zero, and always a local MD5 block |
| VpkParser.Lookup | steamkit-vpk/src/parser.rs:40-42 | `lookup` finds exactly the paths in the tree, with their entries |
| VpkLib.HeaderAt | steamkit-vpk/src/lib.rs:66-97 | too little input is `Parse`; a wrong signature is `InvalidSignature(sig)`; version 1 gives `V1` after 12 bytes; version 2 needs 28 bytes; any other version is `UnsupportedVersion(v)` |
| VpkLib.HeaderAgrees | steamkit-vpk/src/lib.rs:66-97 | the derived header decoder accepts exactly the headers this one accepts whose MD5 lengths pass its checks, with the same fields and length |
| VpkLib.CString | steamkit-vpk/src/lib.rs:99-109 | the same result as the derived `cstring`, with `Parse` as its only error |
| VpkLib.ExtStep | steamkit-vpk/src/lib.rs:112-117 | an extension that fails is `Parse`, an empty one ends the tree, and any other opens its directory list |
| VpkLib.DirStep | steamkit-vpk/src/lib.rs:119-124 | an empty directory closes the extension; any other opens its name list |
| VpkLib.NameStep | steamkit-vpk/src/lib.rs:126-149 | an empty name closes the directory; any other is followed by one directory entry |
| VpkLib.Tree | steamkit-vpk/src/lib.rs:111-158 | the three nested loops stop exactly where the tree grammar ends, and every failure is `Parse` |
| LangParser.IdentifierAt | steamkit-lang/src/parser.rs:86-90 | succeeds exactly at an identifier character and takes the longest run of them |
| LangParser.TypeAt | steamkit-lang/src/parser.rs:92-96 | succeeds exactly at a type character (identifier characters, `<`, `>`, `:`, `.`) and takes the longest run |
| LangParser.HexAt | steamkit-lang/src/parser.rs:74-76 | succeeds exactly at `0x` and a hex digit; the value is the longest run of hex digits, without the prefix |
| LangParser.NumberAt | steamkit-lang/src/parser.rs:101 | succeeds exactly when a digit follows an optional `-`, and takes the longest run of digits |
| LangParser.ParseRefAt | steamkit-lang/src/parser.rs:78-80 | a reference is read exactly when an identifier, `::` or `.`, and a second identifier follow; it ends where the second identifier ends |
| LangParser.GenericAt | steamkit-lang/src/parser.rs:82-84 | a generic is read exactly when `<`, a non-empty run without `<`, `>` or newline, and `>` follow; the value is the text between the brackets |
| LangParser.UnionTail | steamkit-lang/src/parser.rs:105 | every further element of a union is a non-empty identifier |
| LangParser.UnionAt | steamkit-lang/src/parser.rs:104-107 | a union is read exactly when an identifier starts it, and its first element is that identifier's text |
| LangParser.UnionTailRead | steamkit-lang/src/parser.rs:105 | each further element is the identifier read after whitespace, `|` and whitespace, in order, and the tail stops only where no such separator and identifier follow |
| LangParser.UnionRead | steamkit-lang/src/parser.rs:104-107 | a union is its first identifier followed by every further element read after a `|` separator, in order, up to where no separator and identifier follow |
| LangParser.EnumVariantValueAt | steamkit-lang/src/parser.rs:98-109 | hex is tried first, then a number, then a union: a value is read exactly when one of them applies, and the first that applies decides its kind |
| LangParser.CommentAt | steamkit-lang/src/parser.rs:111-116 | a comment is read exactly when optional spaces, `//` and the rest of the line follow; the value is that rest trimmed, and it stops at the first line break |
| LangParser.ReasonAt | steamkit-lang/src/parser.rs:118-120 | a reason is a non-empty text without quotes or newlines between double quotes |
| LangParser.StatusAt | steamkit-lang/src/parser.rs:133-136 | the status is `removed` exactly when spaces and `removed` follow, `obsolete` exactly when spaces and `obsolete` (not `removed`) follow, and otherwise empty with nothing consumed and no reason |
| LangParser.LeadingCommentEnd | steamkit-lang/src/parser.rs:125-126 | the position after the full-line comment when one follows the whitespace, and the start otherwise |
| LangParser.VariantNameAt | steamkit-lang/src/parser.rs:125-129 | a variant's name is the identifier that starts after the optional leading comment and whitespace |
| LangParser.NameEqualsAt | steamkit-lang/src/parser.rs:128-129 | a name is read exactly when an identifier, spaces, `=` and a space follow; the name is the identifier and reading ends after the spaces that follow `=` |
| LangParser.VariantTrailerAt | steamkit-lang/src/parser.rs:133-139 | the trailer carries the status and reason `StatusAt` reads, and an inline comment exactly when `CommentAt` finds one after it |
| LangParser.EnumVariantAt | steamkit-lang/src/parser.rs:122-153 | a variant is never both removed and obsolete, carries a reason only with one of them, and takes the name and value read in front of its `;` |
| LangParser.EnumVariantRead | steamkit-lang/src/parser.rs:122-153 | a variant is read exactly when a name, a value and `;` after spaces follow one another |
| LangParser.EnumVariantFields | steamkit-lang/src/parser.rs:122-153 | the variant read holds the name, the value, the status flags, the reason and the comment of its parts, and ends where its trailer ends |
| LangParser.EnumVariantsAt | steamkit-lang/src/parser.rs:168 | `many0` gives every variant read in order, each starting where the one before it ended, and stops at the first position where none parses |
| LangParser.PublicEnd | steamkit-lang/src/parser.rs:159 | `public` is skipped exactly when spaces follow it, and then the spaces after it are skipped too |
| LangParser.FlagsAt | steamkit-lang/src/parser.rs:164 | the flags marker is present exactly when whitespace and `flag` follow |
| LangParser.CloseAt | steamkit-lang/src/parser.rs:169 | a closing brace is read exactly when `}` follows the whitespace; an optional `;` after it is taken too |
| LangParser.OpenAt | steamkit-lang/src/parser.rs:165-167 | an opening brace is read exactly when whitespace, at least one character of it, and `{` follow; reading ends just after `{` |
| LangParser.DeclNameAt | steamkit-lang/src/parser.rs:158-162 | a head is found exactly when, after whitespace and an optional `public`, the keyword, whitespace and an identifier follow; the name is that identifier |
| LangParser.DeclHeadAt | steamkit-lang/src/parser.rs:158-163 | the head holds that name and a generic exactly when one follows the name |
| LangParser.EnumAt | steamkit-lang/src/parser.rs:155-180 | an enum is read exactly when its head, whitespace and `{`, and after the variants a `}` follow; it holds the head's name and generic, those variants, and `flags` exactly when the marker follows |
| LangParser.ClassMemberValueAt | steamkit-lang/src/parser.rs:182-192 | hex is tried first, then a number, then a reference; a value is read exactly when one applies, and it holds the text the first that applies reads |
| LangParser.ConstMemberAt | steamkit-lang/src/parser.rs:201-214 | the `const` form gives a constant with no modifier and no value, whose type and name are the runs read after `const` and spaces |
| LangParser.ModifierMemberAt | steamkit-lang/src/parser.rs:215-228 | the modifier form gives a non-constant whose modifier, type and name are the three space-separated runs it reads |
| LangParser.PlainMemberAt | steamkit-lang/src/parser.rs:229-238 | the plain form is read exactly when a type, spaces and an identifier follow, and gives a non-constant with that type and name |
| LangParser.MemberHeadAt | steamkit-lang/src/parser.rs:196-240 | the three forms are tried in the order `const`, modifier, plain, and the first that applies is taken; a member is constant exactly when the `const` form applies |
| LangParser.MemberInitAt | steamkit-lang/src/parser.rs:241-244 | with no initial value nothing is consumed |
| LangParser.MemberInitRead | steamkit-lang/src/parser.rs:241-244 | an initial value is read exactly when spaces, `=`, spaces and a member value follow; it is that value and reading ends where the value ends |
| LangParser.ClassMemberAt | steamkit-lang/src/parser.rs:194-253 | a constant member has no modifier |
| LangParser.ClassMemberRead | steamkit-lang/src/parser.rs:194-253 | a member is read exactly when a member form after whitespace and then `;` after spaces follow; it is that form with the initial value put in, and reading ends after the whitespace that follows `;` |
| LangParser.ClassMembersAt | steamkit-lang/src/parser.rs:268 | `many0` gives every member read in order, each starting where the one before it ended, and stops at the first position where none parses |
| LangParser.RemovedAt | steamkit-lang/src/parser.rs:264 | the `removed` marker is present exactly when whitespace and `removed` follow |
| LangParser.ClassAt | steamkit-lang/src/parser.rs:255-280 | a class is read exactly when its head, whitespace and `{`, and after the members a `}` follow; it holds the head's name and generic, those members, and `removed` exactly when the marker follows |
| LangParser.ImportAt | steamkit-lang/src/parser.rs:282-291 | an import is read exactly when `#import` and a quoted file name follow; the value is that name |
| LangParser.ItemAt | steamkit-lang/src/parser.rs:295-301 | an import, an enum and a class are tried in that order after whitespace: an item is found exactly when one parses, and it is the one the first that parses reads |
| LangParser.DocumentAt | steamkit-lang/src/parser.rs:293-305 | `document` never fails; it holds every item read in order, each starting where the one before it ended, stops where no item parses, and is empty exactly when none parses at the start |
| LangParser.HexOn | steamkit-lang/src/parser.rs:74-76 | `0x` and hex digits, followed by a non-digit, read back as those digits |
| LangParser.IdentifierOn | steamkit-lang/src/parser.rs:86-90 | a run of identifier characters followed by a non-identifier character reads back as exactly that run |
| LangParser.ParseRefOn | steamkit-lang/src/parser.rs:78-80 | two identifiers joined by `::` or `.`, followed by a non-identifier character, read back as one reference |
| LangParser.GenericOn | steamkit-lang/src/parser.rs:82-84 | a bracketed run of generic characters reads back as that run |
| LangParser.UnionOn | steamkit-lang/src/parser.rs:104-107 | names joined by ` | `, followed by a character that ends the union, read back as those names in order |
| LangParser.CommentOn | steamkit-lang/src/parser.rs:111-116 | `//` and a line, followed by the end of the input or a line break, read back as that line trimmed |
| LangParser.ImportOn | steamkit-lang/src/parser.rs:282-291 | `#import "f"` with a non-empty name of quote-free, newline-free characters reads back as `f` |
| LangParser.NumberOn | steamkit-lang/src/parser.rs:99-103 | a decimal value followed by `;` reads back as itself and is not taken for hex |
| LangParser.ValueOn | steamkit-lang/src/parser.rs:98-109 | a hex or decimal value followed by `;` reads back as itself |
| LangParser.ReasonOn | steamkit-lang/src/parser.rs:118-120 | a quoted reason reads back as its text |
| LangParser.KeywordOn | steamkit-lang/src/parser.rs:134 | after one space `removed` and `obsolete` are told apart |
| LangParser.StatusOn | steamkit-lang/src/parser.rs:133-136 | a status the grammar can carry (at most one keyword, a reason only with a keyword), followed by the end of the input or a line break, reads back as itself |
| LangParser.NothingBefore | steamkit-lang/src/parser.rs:126-128 | before an identifier character there is no whitespace and no comment to skip |
| LangParser.VariantNameOn | steamkit-lang/src/parser.rs:128-129 | a name followed by ` = ` and a non-space reads back as that name |
| LangParser.NoCommentAt | steamkit-lang/src/parser.rs:111-116 | at the end of the input or a line break there is no inline comment |
| LangParser.VariantTrailerOn | steamkit-lang/src/parser.rs:133-139 | a status text followed by the end of the input or a line break reads back as that status and no comment |
| LangParser.StatusKeywordFlags | steamkit-lang/src/parser.rs:145-146 | the keyword names exactly the flag that is set |
| LangParser.EnumVariantOn | steamkit-lang/src/parser.rs:122-153 | a variant with a hex or decimal value, a status the grammar can carry and no inline comment, written as `name = value;` and its status and followed by the end of the input or a line break, reads back as itself |
| LangParser.LeadingCommentDropped | steamkit-lang/src/parser.rs:125-126 | one full-line comment before a variant is dropped: the variant reads as if it started after it |
| LangParser.SecondCommentRejected | steamkit-lang/src/parser.rs:125-128 | only one full-line comment is dropped: after a second one no name is read |
| LangBuildParser.CommentAt | steamkit-lang/build/parser.rs:59-63 | succeeds exactly at a character of the comment set and takes the longest run of them |
| LangBuildParser.QuotedAt | steamkit-lang/build/parser.rs:90 | a quoted text is read exactly when `"`, a non-empty run of comment characters and `"` follow; the value is the text inside |
| LangBuildParser.GenericAt | steamkit-lang/build/parser.rs:49-51 | a generic is read exactly when `<`, an identifier and `>` follow; the value is that identifier, because `identifier` is tried first |
| LangBuildParser.ValueAt | steamkit-lang/build/parser.rs:65-76 | hex is tried first; otherwise a number is read exactly when the optionally negative digits parse as an `i32`, and its value is that `i32` |
| LangBuildParser.LeadingCommentEnd | steamkit-lang/build/parser.rs:81 | the position after the line break that ends a full-line comment when one follows the whitespace, and the start otherwise |
| LangBuildParser.VariantNameAt | steamkit-lang/build/parser.rs:81-84 | a name is read exactly when, after the optional comment and whitespace, an identifier, whitespace, `=` and one whitespace character follow; the name is the identifier |
| LangBuildParser.StatusAt | steamkit-lang/build/parser.rs:86-92 | the status is `removed` exactly when whitespace and `removed` follow, `obsolete` exactly when whitespace and `obsolete` (not `removed`) follow, and otherwise empty with nothing consumed and no reason; a reason is a non-empty run of comment characters |
| LangBuildParser.InlineCommentAt | steamkit-lang/build/parser.rs:93-96 | an inline comment is read exactly when whitespace, `//`, whitespace and the rest of the line follow; the value is that rest, which holds no line break |
| LangBuildParser.VariantTrailerAt | steamkit-lang/build/parser.rs:86-97 | the trailer carries the status and reason `StatusAt` reads, and exactly the comment `InlineCommentAt` finds after it |
| LangBuildParser.EnumVariantAt | steamkit-lang/build/parser.rs:78-111 | a variant is never both removed and obsolete, carries a reason only with one of them, has a non-empty identifier as name and an `i32` or hex value |
| LangBuildParser.EnumVariantRead | steamkit-lang/build/parser.rs:78-111 | a variant is read exactly when a name, a value and `;` right after it follow one another |
| LangBuildParser.EnumVariantFields | steamkit-lang/build/parser.rs:78-111 | the variant read holds the name, the value, the status flags, the reason and the comment of its parts, and ends where its trailer ends |
| LangBuildParser.EnumVariantsAt | steamkit-lang/build/parser.rs:123 | `many0` gives every variant read in order, each starting where the one before it ended, stops at the first position where none parses, and every value read is an `i32` or hex |
| LangBuildParser.FlagsAt | steamkit-lang/build/parser.rs:119 | the flags marker is present exactly when whitespace and `flag` follow |
| LangBuildParser.EnumHeadAt | steamkit-lang/build/parser.rs:116-118 | the name and the generic, if any, are non-empty identifiers |
| LangBuildParser.EnumHeadRead | steamkit-lang/build/parser.rs:116-118 | a head is read exactly when whitespace, `enum`, whitespace and an identifier follow; the name is that identifier, and the generic is there exactly when one follows it |
| LangBuildParser.EnumAt | steamkit-lang/build/parser.rs:113-135 | an enum has the name and generic of its head, `flags` is set exactly when the marker follows, and every value is an `i32` or hex |
| LangBuildParser.OpenAt | steamkit-lang/build/parser.rs:120-122 | an opening brace is read exactly when whitespace and `{` follow; reading ends just after `{` |
| LangBuildParser.CloseAt | steamkit-lang/build/parser.rs:124 | a closing brace is read exactly when `}` follows at once; an optional `;` after it is taken too |
| LangBuildParser.BodyRead | steamkit-lang/build/parser.rs:120-125 | an enum body is read exactly when whitespace and `{`, the variants, and `}` right after them follow; it holds exactly those variants and reading goes on after the optional `;` and whitespace |
| LangBuildParser.EnumRead | steamkit-lang/build/parser.rs:113-135 | an enum is read exactly when its head, the opening brace, and after the variants a closing brace follow; it holds those variants and ends after the whitespace that follows |
| LangBuildParser.ImportAt | steamkit-lang/build/parser.rs:137-146 | an import is read exactly when `#import` and a quoted text follow; the value is that text |
| LangBuildParser.ItemAt | steamkit-lang/build/parser.rs:161-164 | an import and an enum are tried in that order after whitespace: an item is found exactly when one parses, and it is the one the first that parses reads |
| LangBuildParser.DocumentAt | steamkit-lang/build/parser.rs:159-167 | `document` never fails; it holds every item read in order, each starting where the one before it ended, stops where no item parses, is empty exactly when none parses at the start, and every enum in it has `i32` or hex values |
| LangBuildParser.GenericRejectsPath | steamkit-lang/build/parser.rs:50 | a path such as `<a::b>` is never a generic: `identifier` matches `a` and `>` is then missing |
| LangBuildParser.NumberValueOn | steamkit-lang/build/parser.rs:68-74 | the decimal rendering of any `i32`, followed by `;`, reads back as that number |
| LangBuildParser.OutOfRangeRejected | steamkit-lang/build/parser.rs:69-72 | digits above `i32::MAX` followed by `;` are no value at all |
| LangBuildParser.SemicolonRightAfterValue | steamkit-lang/build/parser.rs:85 | `;` must follow the value at once: anything else, a space included, rejects the variant |
| LangBuildParser.KeywordOnNextLine | steamkit-lang/build/parser.rs:87 | the status keyword may sit on the next line, because the whitespace before it includes line breaks |
| LangBuildParser.NothingBefore | steamkit-lang/build/parser.rs:81-82 | before an identifier character there is no whitespace and no comment to skip |
| LangBuildParser.VariantNameOn | steamkit-lang/build/parser.rs:82-84 | a name, one whitespace character, `=` and one whitespace character (each may be a line break) read back as that name |
| LangBuildParser.ValueOn | steamkit-lang/build/parser.rs:65-76 | an `i32` or hex value followed by `;` reads back as itself |
| LangBuildParser.QuotedOn | steamkit-lang/build/parser.rs:90 | a quoted run of comment characters reads back as that text |
| LangBuildParser.KeywordOn | steamkit-lang/build/parser.rs:87 | after one space `removed` and `obsolete` are told apart |
| LangBuildParser.StatusOn | steamkit-lang/build/parser.rs:86-92 | a status the grammar can carry, followed by a place with no keyword, quote or comment after whitespace, reads back as itself |
| LangBuildParser.NoInlineCommentAt | steamkit-lang/build/parser.rs:93-96 | such a place holds no inline comment |
| LangBuildParser.EnumVariantOn | steamkit-lang/build/parser.rs:78-111 | a variant with an `i32` or hex value, a status the grammar can carry and no inline comment, written as `name = value;` and its status, reads back as itself |
| LangGenerator.TypeName | steamkit-lang/src/generator.rs:227-246 | a type is spelled exactly when no reference occurs in it (a reference is the `todo` error); an array is spelled `[…]` and nothing else starts with `[` |
| LangGenerator.ArraySpellingSplit | steamkit-lang/src/generator.rs:241-243 | in `[x; n]` with a decimal length, the element spelling and the length are recovered |
| LangGenerator.TypeNameInjective | steamkit-lang/src/generator.rs:227-246 | different types are spelled differently |
| LangGenerator.VariantBlockEndsWithConst | steamkit-lang/src/generator.rs:293-308 | every variant's lines end with its `pub const`, commented out exactly when the variant is removed |
| LangGenerator.VariantBlockDeprecated | steamkit-lang/src/generator.rs:295-306 | a `#[deprecated` attribute opens a variant's lines exactly when it is obsolete and not removed |
| LangGenerator.VariantBlockReason | steamkit-lang/src/generator.rs:295-306 | a reason goes on its own line before the constant: as a comment when removed, as the attribute's text when obsolete |
| LangGenerator.VariantBlockInOrder | steamkit-lang/src/generator.rs:281-309 | the `k`-th variant's lines follow those of the variants before it and precede those after it |
| LangGenerator.UnderlyingType | steamkit-lang/src/generator.rs:271-274 | the underlying type is the generic when there is one, and `i32` otherwise |
| LangGenerator.EnumTextPieces | steamkit-lang/src/generator.rs:266-345 | the code of an enum is the struct header, the variant lines, the brace closing their `impl`, the `PartialEq` impl against the underlying type, the one the other way round, and the closing impl, in that order |
| LangGenerator.EnumTextHeader | steamkit-lang/src/generator.rs:276-311 | the code opens with the struct over the underlying type, then the variant lines and the closing brace |
| LangGenerator.EnumTextClosing | steamkit-lang/src/generator.rs:326-341 | a flags enum ends with its `BitOr` impl; any other enum with variants ends with a `Default` naming its first variant, removed or not; an enum with neither ends with the second `PartialEq` impl |
| LangGenerator.VariantsTextSnoc | steamkit-lang/src/generator.rs:281-309 | one more variant adds its lines at the end |
| LangGenerator.GenerateEnum | steamkit-lang/src/generator.rs:266-345 | the writer `Enum::generate` fills, one iteration per variant, ends as `EnumText` |
| LangGenerator.GenerateVariant | steamkit-lang/src/generator.rs:282-308 | one iteration writes that variant's lines |
| LangGenerator.EnumsOf | steamkit-lang/src/generator.rs:252-260 | a document holds at most as many enums as entries |
| LangGenerator.DocumentTextIsEnumsText | steamkit-lang/src/generator.rs:248-264 | a document's code is the code of its enums in order; imports and classes write nothing |
| LangGenerator.GenerateDocument | steamkit-lang/src/generator.rs:248-264 | the writer `Document::generate` fills, entry by entry, ends as the document's code |
| LangGenerator.Generate | steamkit-lang/src/generator.rs:347-357 | one output per module name, each the code of that module's document, whatever order the map is visited in |
| LangBuildGenerator.ParseHexI64 | steamkit-lang/build/generator.rs:65 | a parsed hexadecimal value lies in the range of `i64` |
| LangBuildGenerator.Discriminant | steamkit-lang/build/generator.rs:64-68 | a discriminant lies in the range of `i64`; an `Or` list has none (the `panic!`) |
| LangBuildGenerator.NumberDiscriminant | steamkit-lang/build/generator.rs:66 | a number written in decimal has that number as discriminant |
| LangBuildGenerator.HexDiscriminant | steamkit-lang/build/generator.rs:65 | hexadecimal digits have their value as discriminant exactly when it fits in `i64` |
| LangBuildGenerator.ConvertType | steamkit-lang/build/generator.rs:80-92 | exactly the eight SteamLanguage integer types convert, each to a Rust integer type; anything else is the `panic!` |
| LangBuildGenerator.ConvertTypeTable | steamkit-lang/build/generator.rs:80-92 | the pairing: `char`→`i8`, `byte`→`u8`, `short`→`i16`, `ushort`→`u16`, `int`→`i32`, `uint`→`u32`, `long`→`i64`, `ulong`→`u64` |
| LangBuildGenerator.Repr | steamkit-lang/build/generator.rs:97 | the `repr` is the converted generic, and `i32` when there is none |
| LangBuildGenerator.Dedup | steamkit-lang/build/generator.rs:55-78 | `unique_variants` keeps every variant in place and changes at most its `removed` flag, and never un-removes one |
| LangBuildGenerator.DedupNoneIff | steamkit-lang/build/generator.rs:59-68 | it panics exactly when a variant not already removed has no discriminant |
| LangBuildGenerator.DedupStep | steamkit-lang/build/generator.rs:59-75 | the first variant is decided after all later ones: it is marked removed exactly when a later kept variant already claimed its discriminant |
| LangBuildGenerator.DedupSeen | steamkit-lang/build/generator.rs:57-75 | the set of discriminants holds exactly those of the variants kept |
| LangBuildGenerator.DedupKeptHasValue | steamkit-lang/build/generator.rs:64-68 | every kept variant has a discriminant |
| LangBuildGenerator.DedupMarkedAt | steamkit-lang/build/generator.rs:59-75 | a variant not removed in the input is marked removed exactly when a later variant keeps the same discriminant: the last of equal discriminants survives |
| LangBuildGenerator.DedupDistinct | steamkit-lang/build/generator.rs:55-78 | afterwards no two kept variants share a discriminant |
| LangBuildGenerator.DedupSuffixNone | steamkit-lang/build/generator.rs:59-68 | a panic on the later variants is a panic on the whole list |
| LangBuildGenerator.UniqueVariants | steamkit-lang/build/generator.rs:55-78 | the loop over the variants from last to first gives what `Dedup` says, and fails exactly when `Dedup` panics |
| LangBuildGenerator.StatusCommentsOut | steamkit-lang/build/generator.rs:124-141 | every line ends with its entry, commented out with `// ` exactly when the variant is removed |
| LangBuildGenerator.FlagLineShape | steamkit-lang/build/generator.rs:109-142 | a flag line ends with its `const`, commented out exactly when the variant is removed |
| LangBuildGenerator.PlainLineShape | steamkit-lang/build/generator.rs:159-194 | a `#[repr]` enum line ends with its entry, commented out exactly when the variant is removed |
| LangBuildGenerator.PlainLineDefault | steamkit-lang/build/generator.rs:170-185 | a line opens with `#[default]` exactly when it is the default one and the variant is neither removed nor obsolete |
| LangBuildGenerator.FirstPlainUnique | steamkit-lang/build/generator.rs:157-185 | at most one variant gets `#[default]` |
| LangBuildGenerator.FirstPlainExists | steamkit-lang/build/generator.rs:157-185 | when some variant is neither removed nor obsolete, one of them gets `#[default]` |
| LangBuildGenerator.FlagsLineAt | steamkit-lang/build/generator.rs:99-145 | a flags enum writes every variant, duplicates included, one line each, in order |
| LangBuildGenerator.PlainLineAt | steamkit-lang/build/generator.rs:146-197 | a `#[repr]` enum writes one line per unique variant, in order, and `#[default]` goes on the first that is neither removed nor obsolete |
| LangBuildGenerator.ImportPathOfModule | steamkit-lang/build/generator.rs:46-49 | importing `m.steamd` uses `super::m::*` |
| LangBuildGenerator.DocImportsStep | steamkit-lang/build/generator.rs:42-51 | the imports of a document grow entry by entry |
| LangBuildGenerator.AppendedNoneIff | steamkit-lang/build/generator.rs:42-51 | writing the entries panics exactly when one of them does |
| LangBuildGenerator.DocBodyNoneIff | steamkit-lang/build/generator.rs:40-53 | a document panics exactly when one of its enums does; imports and classes never do |
| LangBuildGenerator.Generator.constructor | steamkit-lang/build/generator.rs:7-11 | `Generator::default` has no imports and an empty body |
| LangBuildGenerator.Generator.ToString | steamkit-lang/build/generator.rs:13-28 | the output ends with the body, is the body alone exactly when there is nothing to import, and otherwise starts with the three `allow` lines |
| LangBuildGenerator.Generator.ToStringUses | steamkit-lang/build/generator.rs:16-25 | every import has its `use` line in the output |
| LangBuildGenerator.Generator.GenerateDocument | steamkit-lang/build/generator.rs:40-53 | succeeds exactly when no enum panics; then the imports gain the document's imports and the body gains its code |
| LangBuildGenerator.Generator.GenerateEntry | steamkit-lang/build/generator.rs:43-50 | an import adds its `use` path, an enum generates itself, a class writes nothing |
| LangBuildGenerator.Generator.GenerateEnum | steamkit-lang/build/generator.rs:94-199 | succeeds exactly when the enum has code; then its imports are added and its code appended to the body |
| LangBuildGenerator.EnumCodeOf | steamkit-lang/build/generator.rs:94-199 | an unknown `repr` panics; a flags enum is the `bitflags!` block of all its variants; any other enum is the `#[repr]` enum of its unique variants, and panics when deduplication or a kept union does |
| LangBuildGenerator.WriteStatus | steamkit-lang/build/generator.rs:127-139 | the prefix of a line, branch by branch, is `Status` |
| LangBuildGenerator.FlagsCode | steamkit-lang/build/generator.rs:99-145 | the `bitflags!` block is the header, one line per variant, and the closing braces |
| LangBuildGenerator.FlagVariants | steamkit-lang/build/generator.rs:109-142 | the loop writes the lines of all the variants, in order |
| LangBuildGenerator.FlagLineText | steamkit-lang/build/generator.rs:110-141 | one iteration writes that variant's line |
| LangBuildGenerator.PlainCode | steamkit-lang/build/generator.rs:146-197 | the `#[repr]` enum is written exactly when deduplication succeeds and no kept variant is a union, and is then the enum of the unique variants |
| LangBuildGenerator.PlainVariants | steamkit-lang/build/generator.rs:157-194 | the loop fails exactly at a union and otherwise writes the lines of the unique variants |
| LangBuildGenerator.FirstPlainStep | steamkit-lang/build/generator.rs:157-185 | the `first` flag marks exactly the first variant that is neither removed nor obsolete |
| LangBuildGenerator.PlainLineText | steamkit-lang/build/generator.rs:160-193 | one iteration writes that variant's line and keeps `first` true only while no plain variant has been seen |
| LangBuildGenerator.GenerateStream | steamkit-lang/build/generator.rs:33-37 | a fresh generator that has generated the document |
| Text.Trim | steamkit-lang/src/parser.rs:114 | `str::trim` gives the input with its leading and trailing whitespace cut off and nothing else changed; it is empty exactly when the input is all whitespace |
| Text.TrimIdempotent | steamkit-lang/src/parser.rs:148 | trimming the comment a second time changes nothing |
| Text.Replace | src/vdf/ser.rs:84-88 | a text shorter than the pattern is left as it is |
| Text.ReplaceOccurrence | src/vdf/ser.rs:84-88 | a text with no occurrence of the pattern's first character, followed by the pattern, is copied with the pattern replaced, and replacing goes on after it |
| Text.ReplaceDropsSuffix | steamkit-lang/build/generator.rs:47 | removing `.steamd` from `m.steamd`, with no dot in `m`, leaves `m` |
| Text.NatToString | src/vdf/value/mod.rs:185-220 | a decimal rendering is a non-empty run of digits with no leading zero |
| Text.ParseSigned | steamkit-lang/build/parser.rs:69-72 | `parse` for a signed type gives only values in the type's range |
| Text.ParseSignedOfIntToString | steamkit-lang/build/parser.rs:69-72 | parsing the decimal rendering of any value in range gives that value back |
| Text.ParseUnsigned | steamkit-util/src/id.rs:187 | `parse` for an unsigned type gives only values below its bound |
| Text.ParseUnsignedOfNatToString | steamkit-util/src/id.rs:187 | parsing the decimal rendering of any value that fits gives that value back |

## Left out

- Floating point: the `f32`/`f64` variants and conversions of steamkit-vdf/src/types.rs are carried as opaque bit patterns without arithmetic, and the float methods of src/vdf/ser.rs and the `ryu` formatting in src/vdf/value/mod.rs are not modelled.
- The `vdf!`/`vdf_internal!` macros of src/vdf/value/mod.rs and src/vdf.rs are compile-time token munchers with no run-time behaviour and are not modelled.
- Network, async plumbing, cryptography, disk I/O and the binaries (`main.rs`, fuzz targets, protoc build script) are not part of this model. The file reader steamkit-vpk/src/file.rs is not part of this model; its one computation, `data_offset + archive_offset`, uses `VpkParser.DataOffset`.
- The stub parser steamkit-vdf/src/parser.rs, the type-only files (`kv.rs`, `entry.rs`, every `error.rs`) and the generated constant tables are not part of this model.
- Error variants that the source uses but never declares (`UnexpectedInput` in steamkit-kv, the commented-out variants of steamkit-vdf/src/error.rs) are declared in the model with the payload the code passes them.
- Error messages built with `anyhow!`/`format!` are reduced to their variant; the text is not modelled.
- `num_enum`'s default-variant behaviour is not fixed: the SteamId decoders take a `lenient` flag (out-of-range numbers give the default variant when it is set and an error when it is not), and the properties hold for both settings.
- `heck`'s `to_shouty_snake_case` is a function parameter `shout` of the generators; its behaviour is not modelled, so the properties hold for any case conversion.
- The iteration order of the build generator's import `HashSet` is a caller-supplied sequence; the model does not fix Rust's hash order.
- nom and nom_derive are hand-written cursor functions in `Nom`, `KvParser`, `VdfNom`, `LangParser` and `LangBuildParser`; only the combinator behaviour the grammars use is modelled. The `SkipBefore(data_length)` ahead of the VPK archive-MD5 records is taken to apply unconditionally.
- Panics (`Index` on a missing key, `to` on a map, `get_all` with an empty path, `unwrap` on a failed conversion, `convert_type` on an unknown name) are preconditions or a `None`/`false` result, as each member's contract says; the panic itself is not modelled.
- LegacyValue.Insert: the crate changes the value in place through `&mut self`; the model returns the new value, so aliasing of the mutable reference is not captured. The same holds for `LegacyValue.Set`, `LegacyVdf.Insert` and the `get_mut`/`index_mut` references, which are entry positions here.
- LegacyParser.KeyValues.DecodeTokens: the source's `decode_tokens` only clears the root, so no tree is built from the tokens and the model builds none.
- steamkit-lang/src/generator.rs calls `.generate` on the enum's `Option<String>` generic, which has no such method; the model writes the generic's text verbatim.
- steamkit-lang/build/generator.rs refers to `EnumValue::Or` and to `parse` on an `i32`, neither of which exists in build/parser.rs; the build generator is modelled over `LangParser`'s enum types, whose `Union` plays the part of `Or`, and discriminants are parsed from the variant's text.
- `DataType` is declared in the model for `LangGenerator.TypeName`, since the source's parser produces none; `Class::generate` writes nothing and is not a separate member.
- LangParser.CommentAt: the source trims the comment text twice; the model trims once, which gives the same text (`Text.TrimIdempotent`).
- LegacySer.Data.Int: every Rust integer width that `Serializer` writes (`i8` to `i64`, `u8` to `u64`) is one unbounded `int`, so the per-width `serialize_*` methods are one member and width limits are not modelled; the text written for a value is the same at every width.
- VpkParser.Tree: states only that `tree` stays within its input; what it builds is stated by `VpkParser.BuildTree` and the `...At` lemmas of the three lists.

## Findings

| source | as written | input that shows it | evidently intended | confidence | as-written member | corrected member |
|---|---|---|---|---|---|---|
| steamkit-util/src/id.rs:157-159 | the Steam3 pattern's fourth capture group includes the leading `:`, so the instance text handed to the integer parse starts with `:` and every explicit instance fails with `ParseIntError` | `[A:1:5:1]`, which is what `to_steam3` writes for an anonymous game server with account 5 and instance 1 | the instance digits after the `:` are parsed, so every Steam3 text `to_steam3` writes reads back as the same id | not executed | SteamId.Steam3InstanceRejected | SteamId.Steam3RoundTripCorrected |
