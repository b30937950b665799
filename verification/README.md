# ssh_config parser, editor and resolver — a Dafny model

This project models `ConfigParser.php`, a port of the `ssh-config` Node module. The port reads an OpenSSH client configuration into a tree of nodes, then:

- writes the tree back as text;
- finds, removes and adds `Host` entries;
- resolves the settings that apply to one host.

Host pattern lists are matched by a glob routine, `testGlob`. The file carries it only as commented-out PowerShell.

The model is functional. A node is an immutable `Ast.Node`:

- a `Comment`;
- or a `Directive` with its key, separator, value, quoted flag, leading whitespace and trailing line breaks. A `Host`/`Match` directive also owns the section below it.

Operations are total functions over `seq<char>`:

| Module | Models |
|---|---|
| `Text` | PCRE and .NET character classes, PHP `trim`, a maximal-run scanner |
| `Lexer` | the `space`/`linebreak`/`option`/`separator`/`value`/`comment`/`line` closures |
| `Parser` | the main loop of `parseSshConfig` |
| `Serializer` | `stringify` |
| `RoundTrip` | when `stringify(parse(x)) == x` |
| `Edits` | `find`, `removeHost` and `add` |
| `Glob` | `testGlob` |
| `Resolve` | `Compute` |

Details the model takes from the code itself:

- an option ends only at a space or `=`, not at a tab;
- the leading `space` run also swallows line breaks, since PCRE `\s` includes them;
- `^(Host|Match)$` also accepts `Host` or `Match` followed by one final line feed, which `Ast.IsSectionKey` includes;
- in `testGlob`, .NET `$` accepts a host name with one trailing line feed, and `.` never matches a line feed.

## Model

| member | source | states |
|---|---|---|
| Text.RunEnd | ConfigParser.php:211-227 | A scan loop stops at the first character its class rejects, or at the end of input. Every character it took belongs to the class. |
| Text.Trim | ConfigParser.php:259 | `trim` returns a slice of its input, and everything it cuts off at either end is in PHP's trim set. Neither end of the result is in that set. The input comes back unchanged exactly when neither of its ends is in that set. |
| Lexer.SeparatorEnd | ConfigParser.php:240-249 | The separator is whitespace and at most one `=`, and ends at the first non-space. It stops at an `=` only when it has already taken one. |
| Lexer.Unquote | ConfigParser.php:300-303 | A value of two or more characters that starts and ends with `"` is stored without the outer quotes, with `Quoted` set. Putting the quotes back gives the text read. Any other value is kept unchanged with the flag clear. |
| Lexer.CommentLine | ConfigParser.php:262-273 | A `#` line keeps its leading whitespace as `Before`. The content is the text from the `#` up to the first line break or the end of input. `After` is the run of line breaks that follows, and the scan ends where that run ends. |
| Lexer.DirectiveLine | ConfigParser.php:275-282 | A directive keeps its leading whitespace. Its key is the text up to the first space or `=`, and the separator is the text from there to the value. Its value and quoted flag are the unquoting of the trimmed rest of the line. `After` is the run of line breaks after the value, the scan ends where that run ends, and the node owns no section. |
| Lexer.DirectiveLineProgress | ConfigParser.php:284-293 | A directive line always consumes at least one character. |
| Lexer.Line | ConfigParser.php:284-306 | Every line consumes at least one character and gives a node owning no section. The node is a comment exactly when the first non-space character is `#`. |
| Lexer.LineContents | ConfigParser.php:284-306 | One line's node and where each part comes from: `Before` is the leading whitespace. A comment's content runs from its `#` to the line break. A directive's key runs to the first space or `=`, then comes the separator, and the value relates to the raw text by unquoting. `After` is the run of line breaks that ends the line. |
| Parser.Lines | ConfigParser.php:309-321 | The loop turns the input into line nodes. There are no more nodes than characters, none exactly when the input is empty, and none of them owns a section. |
| Parser.Place | ConfigParser.php:311-320 | Placing one node keeps the insertion cursor valid: once a section has been opened, the last root node owns a section to receive the next nodes. |
| Parser.PlaceShape | ConfigParser.php:311-320 | Placing one line keeps the tree well formed and extends its pre-order by exactly that line. |
| Parser.PlaceSectionShape | ConfigParser.php:313-316 | A `Host`/`Match` line goes to the root and owns a new empty section. The tree stays well formed, and its pre-order gains that line. |
| Parser.PlaceInSectionShape | ConfigParser.php:318-319 | Any other line after a section goes into the most recently opened section. Shape and pre-order are kept. |
| Parser.PlaceAtRootShape | ConfigParser.php:318-319 | A line before any section goes to the root. Shape and pre-order are kept. |
| Parser.AssembleShape | ConfigParser.php:311-321 | The main loop, `Parser.Assemble`, turns a run of lines into a well-formed tree whose pre-order is the old one followed by those lines. |
| Parser.Parse | ConfigParser.php:197-324 | The tree is well formed: every `Host`/`Match` sits at the root and owns one section of non-section nodes, all other nodes own nothing, and no root node that is not a section follows a section. Its pre-order is exactly the sequence of scanned lines. |
| Ast.AppendAfter | ConfigParser.php:91 | Appending to `After` extends it by the given text. Every other field of the node is left as it was. |
| Ast.SectionKeyAnchors | ConfigParser.php:22 | A key opens a section exactly when it is `Host` or `Match` after dropping at most one final line feed. This is how the anchored section pattern matches, since PCRE's `$` also matches before a final line feed. |
| Serializer.StringifyIsPreorder | ConfigParser.php:104-139 | `Serializer.Stringify` is the concatenation of each node's own line over the tree's pre-order. |
| Serializer.StringifyNodeIsPreorder | ConfigParser.php:107-132 | `Serializer.StringifyNode` writes the node's line, then its section's nodes in order. |
| Serializer.Render | ConfigParser.php:107-125 | A node's line starts with its `Before` and ends with its `After`. |
| Serializer.QuotedValueReads | ConfigParser.php:116-121 | Take a value that is written in quotes, or that has nothing for `trim` to drop and no quotes of its own. Trimming and unquoting the written value give back the same value. The `quoted` flag comes back set exactly when `NeedsQuotes` held, that is, when the value was quoted or is an `IdentityFile` value holding whitespace. Reading a whole written line is `RoundTrip.NewLineReads`. |
| Serializer.StringifyAppend | ConfigParser.php:134-136 | Serialising two node lists one after the other gives the concatenation of their texts. |
| RoundTrip.LineRoundTrip | ConfigParser.php:284-306 | A scanned line that loses nothing to `trim` or to re-quoting renders back to exactly the text it was scanned from. |
| RoundTrip.LinesRoundTrip | ConfigParser.php:309-321 | The lines from a position on render back to the rest of the input when all of them are exact. |
| RoundTrip.RoundTripText | ConfigParser.php:104-139 | `stringify(parseSshConfig(x)) == x` for every text whose lines are all exact. |
| RoundTrip.ReparseIsIdentity | ConfigParser.php:197-324 | For a text whose lines are all exact, parsing the serialised text gives back the same tree. A line is exact when `trim` drops nothing from its value and no unquoted `IdentityFile` value holding whitespace is in it. |
| RoundTrip.RequotedText | ConfigParser.php:116-121 | The line `IdentityFile v`, with `v` unquoted and holding a blank, is read with `quoted` unset. It is written back as `IdentityFile "v"`. |
| RoundTrip.RequotedIdentityFile | ConfigParser.php:104-139 | Without exactness the reparse is not the identity. For such a line, parsing the serialised text gives a different tree, since `quoted` is now set. |
| RoundTrip.RequotedExample | ConfigParser.php:104-139 | `IdentityFile a b` is a text whose reparse differs from its parse. |
| RoundTrip.ComposedLine | ConfigParser.php:284-306 | Take a line made of whitespace, a key, one blank, a value text and a line feed. It scans as one directive with that indent, key and separator, and with the unquoting of the trimmed value text. |
| RoundTrip.NewLineReads | ConfigParser.php:53-59 | A directive that `add` builds for a pair is read back by the parser once written. The key, value, indent and line feed are the same, and `quoted` is set exactly when the serialiser quoted the value. The key must be readable as a key, and the value non-empty, trimmed and unquoted. |
| Edits.FindFrom | ConfigParser.php:95-101 | The scan from a position returns the first `Host` entry with exactly that value at or after it, or none when there is no such entry. |
| Edits.FindIndex | ConfigParser.php:94-102 | `find` returns the first root node that is a `Host` directive with exactly the given value, and none exactly when no root node is one. Sections are not searched. |
| Edits.Find | ConfigParser.php:94-102 | The node found is such an entry and precedes every other one. It exists exactly when some root node matches. |
| Edits.RemoveHost | ConfigParser.php:27-34 | `removeHost` deletes exactly the node `find` returns, together with its section. Every other root node is kept in order, and an absent host changes nothing. |
| Edits.HostCountZero | ConfigParser.php:94-102 | There are no entries for a host exactly when `find` returns none. |
| Edits.RemoveHostRemovesOne | ConfigParser.php:27-34 | Removing drops the host's entry count by exactly one. The text lost is exactly the removed node and its section. |
| Edits.RemoveOnlyHost | ConfigParser.php:27-34 | Once the only entry for a host is removed, `find` no longer finds it. |
| Edits.FirstIndent | ConfigParser.php:43-48 | The indent found in a section is the `Before` of its first node with a non-empty one. There is none exactly when all are empty. |
| Edits.IndentFrom | ConfigParser.php:41-50 | Scanning root sections from a position: the last one that sets an indent decides, and without one the indent passed in stays. |
| Edits.DiscoverIndent | ConfigParser.php:39-50 | `add` indents with two spaces unless some root section sets an indent, and then the last such section decides. |
| Edits.WildcardIndex | ConfigParser.php:66-74 | The insertion point comes before the first root node whose value holds `*` or `?`. No node before it holds one, and it is the end of the root when none does. |
| Edits.AddPair | ConfigParser.php:52-89 | A section key inserts a new `Host`/`Match` node at the wildcard index and opens its empty section. A plain pair appends an indented directive to the open section, or to the root before any section. |
| Edits.AddAll | ConfigParser.php:52-89 | Handling the pairs in order keeps the add state valid: the open section is a root section node. |
| Edits.EndBlock | ConfigParser.php:91 | Line 91 changes only the last node of the final target, appending a line feed to its `After`. Every other root node is unchanged. When the target is a section, its owner keeps all its own fields, and the other nodes of the section are unchanged. |
| Edits.AddAllTarget | ConfigParser.php:52-89 | After the pairs, a section is open when any key was a section key. Without one, the plain pairs land in the target. The final section is non-empty when a plain pair follows the last section key. |
| Edits.AddAllCount | ConfigParser.php:52-89 | The root grows by the section keys, plus the plain pairs before the first one when adding at the root. |
| Edits.AddPairEmbeds | ConfigParser.php:61-88 | One pair keeps every existing root node unchanged and in order. |
| Edits.AddAllEmbeds | ConfigParser.php:52-89 | All pairs keep every existing root node unchanged and in order. |
| Edits.Add | ConfigParser.php:36-92 | `add` grows the root by the section keys and the plain pairs before the first one. With at least one pair, every old root node survives unchanged and in order. |
| Edits.AddKeepsRoot | ConfigParser.php:36-92 | With at least one pair, the result of `add` holds the old root as an order-preserving embedding. |
| Edits.AddHostBlock | ConfigParser.php:36-92 | Adding `Host h` with plain pairs inserts one `Host h` node before the first wildcard node. That node owns exactly the new directives with the discovered indent, the last one followed by a blank line, and the rest of the root is unchanged. |
| Edits.InsertThenRemove | ConfigParser.php:27-34 | After inserting an entry for a host that had none, `find` returns its position and `removeHost` restores the old root. |
| Edits.AddThenRemoveHost | ConfigParser.php:27-92 | For a host with no entry, `removeHost` undoes `add` of a `Host` block. |
| Glob.Split | ConfigParser.php:327-330 | Splitting on `[,\s]+` gives at least one field. No field contains a comma or .NET whitespace, and only the first and last field may be empty. |
| Glob.SplitRejoins | ConfigParser.php:327-330 | The fields, rejoined with non-empty separator runs, give back the pattern list. |
| Glob.LiteralGlob | ConfigParser.php:339-340 | A pattern without `*` or `?` matches exactly itself, with `.` taken literally. |
| Glob.StarGlob | ConfigParser.php:339-340 | `*` matches exactly the names without a line feed. |
| Glob.GlobConcat | ConfigParser.php:339-340 | Matching pieces concatenate into a match of the concatenated pattern. |
| Glob.GlobSplit | ConfigParser.php:339-340 | Conversely, a match of a concatenated pattern splits the name into a match of the first piece followed by a match of the second. |
| Glob.GlobLength | ConfigParser.php:339-340 | Without `*`, a pattern matches only names no longer than itself, since `?` takes at most one character. |
| Glob.QuestionGlob | ConfigParser.php:339-340 | `?` alone matches the empty name and any single character other than a line feed, and nothing else. |
| Glob.MatchHasNoLineFeed | ConfigParser.php:339-340 | A pattern without a line feed never matches a name holding one, because `.` does not match a line feed. |
| Glob.FinalLineFeed | ConfigParser.php:340 | `Glob.IsMatch` is the anchored match. For a pattern and a name without line feeds, the name is accepted exactly when the glob matches all of it. The name followed by one line feed is accepted just the same. |
| Glob.Keep | ConfigParser.php:330 | Selecting by negation flag keeps exactly the patterns with that flag. |
| Glob.KeepPartition | ConfigParser.php:330 | The negated and plain selections together are a permutation of the list. |
| Glob.NegatedFirst | ConfigParser.php:330 | The sort is a permutation of the patterns in which no negated pattern follows a plain one. |
| Glob.EvaluatePlain | ConfigParser.php:332-351 | Over plain patterns only, the loop answers true exactly when one of them matches. |
| Glob.EvaluateNegatedFirst | ConfigParser.php:332-351 | With negated patterns first, the loop `Glob.Evaluate` answers true exactly when no negated pattern matches and some plain one does. |
| Glob.TestGlob | ConfigParser.php:329-352 | `testGlob` is false when a negated pattern, less its `!`, matches the name. Otherwise it is true exactly when some plain pattern matches it. |
| Glob.SplitExample | ConfigParser.php:327-330 | `*,!bar` splits into `*` and `!bar`. |
| Glob.NegationOverridesStar | ConfigParser.php:329-352 | For a list `*,!h` with a literal `h`, every name without a line feed is accepted exactly when it differs from `h`. |
| Glob.NegationExample | ConfigParser.php:329-352 | `*,!bar` accepts every name without a line feed except `bar`. |
| Resolve.SetProperty | ConfigParser.php:144-157 | `setProperty` adds the key. `IdentityFile` appends the value to its list. Any other key that is already set is left alone, and a new one is set to the value. No other key changes. |
| Resolve.MergeMeaning | ConfigParser.php:144-157 | After the pairs, a key is present exactly when some pair gives it. `IdentityFile` holds all its values in order, and every other key holds its first value. |
| Resolve.SetPropertyExtends | ConfigParser.php:144-157 | One more `setProperty` call keeps that meaning for one more pair. |
| Resolve.SetChildren | ConfigParser.php:173-177 | The section's directives, and only they, are merged in order. Comments are skipped. |
| Resolve.Visit | ConfigParser.php:161-186 | One loop step merges what the node contributes. It marks the host found exactly when the node is a `Host` line naming it. |
| Resolve.Walk | ConfigParser.php:161-186 | The loop merges every contribution in document order. It has found the host exactly when some root `Host` line names it exactly. |
| Resolve.Compute | ConfigParser.php:141-194 | `Compute` is null exactly when `find` finds no entry for the host. Otherwise it keeps the first value of every key, and for `IdentityFile` every value in order. The values come from root directives and from the sections of `Host` lines whose pattern list accepts the host. |
| Resolve.InertNodeIsIgnored | ConfigParser.php:161-186 | Comments, `Match` blocks, and `Host` blocks that neither name nor match the host can be inserted anywhere without changing the result. |
| Resolve.LeadingDirectiveWins | ConfigParser.php:154-156 | A root directive placed before everything else decides its key (other than `Host`, `Match`, `IdentityFile`), whatever the later sections say. |
| Resolve.SetPropertyAsWritten | ConfigParser.php:146-153 | As written, `IdentityFile` is replaced by a one-element list holding only the new value. |
| Resolve.AsWrittenKeepsOnlyLast | ConfigParser.php:146-153 | As written, the merged `IdentityFile` list is present exactly when some pair gives it, and it then holds only the last value. |
| Resolve.IdentityFileResetExample | ConfigParser.php:146-153 | With two `IdentityFile` values `a`, `b`, the code as written keeps only `b`. The merge used by `Compute` keeps `a`, `b`. |

## Left out

- PHP closure and scoping defects are modelled as their evident intent. These are:
  - `$output`, `$str`, `$next` and `$context` not captured (107-108, 206-208, 262, 284-288);
  - the class name `ConfigParser::RE_*` (213, 222, 254, 300, 313);
  - `+` used for string concatenation (248);
  - the undefined `$true` (167, 302);
  - `$node.Value` and `$node.Config.Nodes` used as property access (116, 173).
- PHP truthiness: the character `"0"` ends every scan loop in PHP (213, 222, 232, 254, 265, 311). The model scans to the true end of input instead. The value test at line 300 is modelled without the `"0"` case, which never starts with a quote anyway.
- Loose `==` in `find` and `Compute` is modelled as exact string equality. Numeric-string coercion is not modelled.
- `array_splice` at line 80 is modelled as inserting the node. Given an object, PHP would splice in its properties instead.
- Regex metacharacters other than `.` that line 339 leaves unescaped are matched as literal characters. The glob is a direct recursive matcher, not a regex.
- `Sort-Object` at line 330 is modelled as a stable partition: negated patterns first, each group in its original order.
- Edits.Add: requires `AddDefined`, because line 91 indexes the last node of the final target, which must exist. The `$opts` associative array is a sequence of pairs, so duplicate keys are not excluded.
- Resolve.Compute: the result is a Dafny map, so PHP's insertion order of keys is not modelled.
- Edits.RemoveHost: `unset` leaves a gap in PHP's array keys, and the model closes it. Every `foreach` sees the same nodes in the same order either way, and the `array_splice` of a later `add` renumbers the keys. Line 91 does not agree with the model in one case: a later `add` with no `Host`/`Match` key, appending to the root. There `count - 1` is a key that the new nodes do not all come after. With one pair it names the old node at that key, or no node at all when the removed node was the last one (line 91 then fails). With more pairs it names the second-to-last new node. The model puts the line feed on the last new node in every case.
- Characters: a Dafny `string` is a sequence of Unicode scalar values, while PHP works on bytes and .NET on UTF-16 code units. The PHP character classes (`\s`, line breaks, the `trim` set, the option and separator characters) are all ASCII, so for valid UTF-8 input cutting the text at them gives the same pieces on bytes as on scalar values. The .NET `\s` of the pattern-list splitter, `Text.IsDotNetSpace`, also holds U+0085, U+00A0, U+1680, U+2000 to U+200A, U+2028, U+2029, U+202F, U+205F and U+3000. All of them lie in the Basic Multilingual Plane, so each is one UTF-16 unit and one scalar value, and the split agrees too. `testGlob` differs on characters outside the Basic Multilingual Plane: `.` and `.?` take one UTF-16 unit, so `a?` rejects `a` followed by an emoji, but `Glob.GlobMatch` accepts it. Text that is not valid UTF-8 has no counterpart in the model.
- RoundTrip.ReparseIsIdentity: is proved only for texts whose lines are all exact. Without that it fails, and `RoundTrip.RequotedIdentityFile` proves one such failure: an unquoted `IdentityFile` value holding whitespace comes back quoted. A value that `trim` empties also breaks it. Take `Port \0`, a line feed and `User x`: this is written back as `Port `, a line feed and `User x`, and on the second parse the separator swallows that line feed, so the two lines merge into one.
- Nothing in the file does I/O or concurrency. The `SshConfig` object identity is not modelled, only its node list.

## Findings

| source | as written | input that shows it | evidently intended | confidence | as-written member | corrected member |
|---|---|---|---|---|---|---|
| ConfigParser.php:146-153 | When `IdentityFile` is already present, `setProperty` replaces the list with `[$value]`. When it is absent, it appends. Only the last value survives. | Two root directives `IdentityFile a` and `IdentityFile b` resolve to `[b]` | Every value is appended in document order, giving `[a, b]` | medium, not executed | Resolve.AsWrittenKeepsOnlyLast | Resolve.MergeMeaning |
