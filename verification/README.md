# LaTeX escaper

A model of the escaper in `latex.py`. The program fills a LaTeX template with data from a
JSON file. Before rendering, it escapes every string in the data so that LaTeX's control
characters print as themselves. Two pieces make up the escaper:

- The escape table `Model.conv`. It maps 13 characters to LaTeX-safe text: `&` to `\&`,
  `~` to `\textasciitilde{}`, `\` to `\textbackslash{}`, a newline to `\\ `, and so on.
- `Model.tex_escape`. It compiles one regular expression that alternates every key,
  longest first. It then walks a list or a dictionary in place. Each string slot is
  replaced by `regex.sub(...)`. Each nested list or dictionary goes through a recursive
  call and is written back into its slot. Every other value is left alone.

The model follows Python 3, where `json.load` returns `str` objects that the
`isinstance(..., str)` tests accept.

The Dafny modules follow that structure:

- `EscapeTable` (`escape_table.dfy`) holds the table `Conv`, its keys in insertion order
  (`ConvKeys`), and the stable longest-first sort that orders the alternation.
- `Substitution` (`substitution.dfy`) models what the regex does. `FirstMatch` takes the
  first alternative that matches at a position. `RegexSub` is the `re.sub` scan.
  `EscapeString` is the per-character reference definition. The lemmas give its
  properties: identity on plain text, distribution over `+`, length, and injectivity.
- `JsonEscape` (`json_escape.dfy`) has the JSON value `Json` and the recursive escape
  `Escape`. `TexEscape` is the whole call, including the `TypeError`s Python raises for a
  top-level value that is not a container. The lemmas prove shape preservation and
  identity on plain trees.
- `InPlace` (`in_place.dfy`) holds the imperative form the source actually runs. The list
  branch is a loop over an `array<Json>`. The dictionary branch is a loop over the keys
  of a `JsonDict` object whose `fields` map is overwritten key by key. Both return the
  container they were given.

Two consequences of the code shape what the model proves:

- Every key of `conv` is one character long, so the longest-first order of the alternation
  has no effect. The stable sort leaves the keys in the dictionary's order
  (`PatternIsConvKeys`). `RegexSub` is proved equal to the per-character escape for an
  alternation of the keys in any order, so no inserted backslash is escaped a second time.
- A top-level value that is not a list reaches the `else` branch, which iterates it and
  indexes the value with what it yields. A dictionary is escaped key by key. The empty
  string yields nothing and comes back unchanged. A non-empty string raises `TypeError`
  when it is indexed by one of its own characters. A number, a boolean or `null` raises
  `TypeError` because it is not iterable. `TexEscape` models all of these cases, except
  the `RecursionError` of a tree nested deeper than Python's recursion limit.

## Model

| member | source | states |
|---|---|---|
| `EscapeTable.KeysShape` | latex.py:20-34 | `conv.keys()` in insertion order lists exactly the keys of the table, so it forms an alternation of the keys, and every key is a single character |
| `EscapeTable.ReplacementsShape` | latex.py:20-34 | every replacement text starts with a backslash and is at least two characters long |
| `EscapeTable.SortLongestFirst` | latex.py:42 | `sorted(..., key=lambda item: -len(item))` returns a permutation of its input, ordered by non-increasing length |
| `EscapeTable.SortKeepsEqualLengthOrder` | latex.py:42 | stability in the case the table meets: when all elements have the same length, the sort returns them in their original order |
| `EscapeTable.PatternIsConvKeys` | latex.py:41-42 | the alternatives of the compiled regex are the table's keys in dictionary order |
| `Substitution.FirstMatch` | latex.py:41-42 | the alternation search returns an alternative that is a prefix of the text; when it returns nothing, no alternative matches there |
| `Substitution.FirstMatchSingleChars` | latex.py:41-42 | with one-character alternatives, the match at a position is that position's character if it is an alternative, and nothing otherwise |
| `Substitution.AlternationFindsSpecial` | latex.py:41-42 | with the keys in any order, the alternation matches exactly at special characters and matches only that one character |
| `Substitution.EscapeChar` | latex.py:20-34 | a character becomes at least one character, and at least two exactly when it is a table key |
| `Substitution.EscapeString` | latex.py:20-34 | the escape is never shorter than the input, and it is empty exactly when the input is empty |
| `Substitution.RegexSub` | latex.py:41-47 | `regex.sub(lambda m: conv[m.group()], s)` equals the per-character escape: each character is replaced by its own entry, and inserted text is not rescanned, whatever the order of the alternatives |
| `Substitution.EscapeStringAppend` | latex.py:20-34 | escaping distributes over concatenation |
| `Substitution.EscapeStringLength` | latex.py:20-34 | the output is at least as long as the input, and equally long exactly when the input contains no special character |
| `Substitution.EscapeStringIdentity` | latex.py:20-34 | a string comes back unchanged if and only if it contains no key of the table |
| `Substitution.ReplacementsPrefixFree` | latex.py:20-34 | no replacement text is a prefix of a different one followed by further text |
| `Substitution.EscapeCharHead` | latex.py:20-34 | from an escaped text one can read back the first character and the rest |
| `Substitution.EscapeStringInjective` | latex.py:20-34 | different strings have different escapes |
| `Substitution.BackslashAmpersand` | latex.py:31 | `\&` becomes `\textbackslash{}\&`: the backslash that the first replacement inserts is not escaped again |
| `Substitution.PercentSign` | latex.py:23 | `100%` becomes `100\%` |
| `Substitution.PlainWord` | latex.py:20-34 | ` done` contains no key and comes back unchanged |
| `Substitution.PercentDone` | latex.py:23 | `100% done` becomes `100\% done` |
| `Substitution.UnderscoreAndAmpersand` | latex.py:22-26 | `a_b` becomes `a\_b` and `c&d` becomes `c\&d` |
| `Substitution.NewlineBreak` | latex.py:21 | a newline inside a string becomes `\\ ` and the text around it is kept |
| `Substitution.NotIdempotent` | latex.py:20-34 | escaping already escaped text changes it again, so the escape is not idempotent |
| `JsonEscape.Escape` | latex.py:46-59 | one slot keeps its kind: a string stays a string and never gets shorter, a list keeps its length, a dictionary keeps its keys, and any other value is returned unchanged; `EscapeKeepsShape` gives the full characterisation at every depth |
| `JsonEscape.EscapeItems` | latex.py:44-51 | a walked list keeps its length |
| `JsonEscape.EscapeFields` | latex.py:52-59 | a walked dictionary keeps exactly its key set |
| `JsonEscape.TexEscape` | latex.py:40-60 | a list, an object or the empty string is escaped; a non-empty string fails on string indexing; a number, a boolean or null fails as not iterable |
| `JsonEscape.EscapeKeepsShape` | latex.py:44-59 | the escaped tree has the same shape at every depth (list lengths and order, object keys, every number, boolean and null), and each string leaf is the escape of the original leaf |
| `JsonEscape.EscapeIdentity` | latex.py:44-59 | a tree comes back unchanged if and only if none of its strings contains a special character |
| `JsonEscape.EscapeInjective` | latex.py:44-59 | different trees have different escapes |
| `JsonEscape.NameExample` | latex.py:52-55 | `{"name": "100% done"}` becomes `{"name": "100\% done"}` |
| `JsonEscape.TagsExample` | latex.py:44-59 | `{"tags": ["a_b", "c&d"]}` becomes `{"tags": ["a\_b", "c\&d"]}` |
| `InPlace.Dispatch` | latex.py:46-51 | the three-way dispatch of one slot: strings and containers get their escape, and other values are left alone |
| `InPlace.CompileRegex` | latex.py:41-42 | the compiled regex alternates exactly the table's keys, longest first, in dictionary order |
| `InPlace.TexEscapeList` | latex.py:44-51 | the list loop overwrites the array in place so that each slot holds the escape of its old value, and returns the same array |
| `InPlace.JsonDict.TexEscape` | latex.py:52-60 | the dictionary loop overwrites each value with its escape, keeps the keys, and returns the same object |

## Left out

- The jinja2 environment, `load_template` and `render` (latex.py:10-18, 68-78) are not modelled. They are a third-party template engine and a file write.
- The constructor `Model.__init__` (latex.py:36-38) is not modelled. It only loads the template and the data.
- `load_data` (latex.py:62-66) is not modelled: it is file reading plus `json.load`. The model's input is the already parsed `Json` value.
- The command-line entry point (latex.py:83-93) is not modelled. It only parses arguments and passes them on.
- `re.escape` is not modelled. The alternatives are kept as the literal strings they match, which is what escaping them for the regex syntax achieves.
- Python's regular-expression engine is modelled only as far as this pattern needs: an alternation of non-empty literals, tried left to right at each position.
- JSON numbers carry an integer payload. The escaper only passes them through, so floats are not distinguished from integers.
- Nested lists and dictionaries are values of the `Json` datatype. The recursive call's in-place update of a nested container is modelled by the value written back into its slot. `json.load` builds a tree with no shared sub-objects, so no aliasing is lost.
- `InPlace.JsonDict.TexEscape` visits the keys in an arbitrary order, not Python's insertion order. Each key's update is independent of the others, so the result is the same for every order.
- JSON objects are `map<string, Json>`, which has no key order. A Python dict keeps insertion order, and `tex_escape` keeps it too, because it only overwrites existing keys. The model does not record the order in which a template later iterates an object.
- Dafny's `string` holds Unicode scalar values only. A Python `str` can hold a lone surrogate, for example one that `json.load` decodes from the escape `\ud800`. Such strings are not modelled. The escape would leave the surrogate unchanged, because it is not a key of `conv`.
- `JsonEscape.TexEscape`: Python's recursion limit is not modelled. The recursive calls of `tex_escape` raise `RecursionError` on a tree nested deeper than that limit, while the model escapes trees of any depth and returns `Ok` for them.
