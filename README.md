# alt:V natives declaration generator — text generation, in Dafny

The generator reads the alt:V native catalog and writes `dist/index.d.ts`.
That file is a TypeScript module `@altv/natives` holding one
`export function` signature per native. This project models the pass that
turns an already-parsed catalog into that text, and proves what each step
promises:

- `transformedNativeTypes` / `transformNativeType` (module `NativeTypes`):
  the fixed table from catalog type tags to TypeScript types, with the
  `table[type] || type` fallback.
- `convertSnakeToLowerCamelCase` (module `Naming`): a method with the
  source's `for` loop. It is proved equal to a character-wise reading of
  the conversion (`LowerCamel`), and the properties of the name are proved
  about that reading.
- `transformNativeParams` (module `Params`): the `reduceRight` fold with
  accumulator `{args, canBeOptional}`. It is proved to mark optional exactly
  the contiguous trailing run of by-reference parameters.
- The result type of a signature (module `Results`). The steps are the
  bracket-stripping regular expression, `split(', ')`, resolution, the
  `shift` of a leading `void`, and the tuple / bare / `void` rendering.
  `ReadResult` reads a rendered type back, and it is proved to invert the
  rendering on lists of non-empty, non-`void` types without commas or
  brackets.
- `convertToBlockComment` (module `Comments`): the JSDoc block, with its
  line structure and escaping proved.
- The loop of `main` (module `Declarations`). `RenderEntry` models the body
  of the inner loop, including the in-place `shift`. `GenerateDeclarations`
  models the two nested loops that `push` onto `nativesList`, and the final
  template. Both methods are proved against functions of the catalog.

The JavaScript built-ins the code relies on are written out explicitly in
`JsString`:

- `split` with a literal separator, and `join`;
- ASCII `toLowerCase` and `toUpperCase`;
- `trim`, with the ECMAScript white-space and line-terminator set.

`Seqs` holds small generic facts about sequences that the proofs use.

Two behaviours of the code worth noting:

- The first line of a comment is emitted without escaping
  (src/index.js:47-48). Only the later lines have star-slash replaced.
  `Comments.BlockCommentCloses` states the consequence. The comment body
  holds a star-slash exactly when the first comment line does, so such a
  line ends the generated block early.
- A single remaining result type that is the empty string renders as
  `void`, because of `|| 'void'` (src/index.js:93). A table value of `""`
  would likewise fall back to the tag.
- A comment is emitted exactly when `comment.trim()` is non-empty.

## Model

| member | source | states |
|---|---|---|
| NativeTypes.TableShape | src/index.js:7-23 | The table's tags are exactly the thirteen listed, and the duplicated `FireId` maps to `number`. |
| NativeTypes.ResolveSpec | src/index.js:40-42 | A mapped tag resolves to its table value, and any other tag resolves to itself. A non-empty tag never resolves to the empty string. |
| NativeTypes.ResolveIdempotent | src/index.js:40-42 | Resolving an already resolved type changes nothing, because no table value is itself a tag. |
| NativeTypes.ResolveKeepsFree | src/index.js:40-42 | A character absent from the tag and from every table value is absent from the resolved type. |
| NativeTypes.TransformNativeType | src/index.js:40-42 | The result is the tag itself or one of the table's values; `ResolveSpec` says which. |
| JsString.Split | src/index.js:30 | `split` with a literal separator always yields at least one piece. |
| JsString.JoinSplit | src/index.js:30 | Joining the pieces of a split with the same separator gives back the string. |
| JsString.SplitJoin | src/index.js:90 | Splitting a join gives back the pieces when no piece holds the separator's first character. |
| JsString.SplitPiecesSepFree | src/index.js:90 | For any non-empty separator, no piece of a split contains the separator as a contiguous run of characters. |
| JsString.SplitPiecesFree | src/index.js:30 | With a one-character separator, no piece contains the separator's character (the one-character case of `SplitPiecesSepFree`). |
| JsString.Join | src/index.js:55 | `join`, given meaning by its round trips with `Split` (`JoinSplit`, `SplitJoin`). |
| JsString.ToLowerCase | src/index.js:30 | Keeps the length and lower-cases each ASCII letter in place; `CamelizeIgnoresCase` shows the conversion does not depend on it. |
| JsString.Trim | src/index.js:96 | Never longer than its input; a non-empty result starts and ends with a character that is not white space. `TrimIsInfix` states what is removed. |
| JsString.TrimIsInfix | src/index.js:96 | `trim()` returns a contiguous part of its input, and everything removed before and after it is ECMAScript white space. |
| JsString.TrimNonEmpty | src/index.js:97 | `trim()` leaves a non-empty string exactly when some character is not ECMAScript white space. |
| JsString.HasCloseAt | src/index.js:50 | The star-slash test holds exactly when some `*` is directly followed by `/`. |
| Naming.StripLeadingUnderscore | src/index.js:26-28 | The input is `_` followed by the result exactly when it starts with `_`; otherwise the result is the input. |
| Naming.LowerCamel | src/index.js:25-38 | The character-wise conversion. `ConvertSnakeToLowerCamelCase` is proved equal to it, and the lemmas below state its properties. |
| Naming.Capitalize | src/index.js:34 | Keeps the length, upper-cases the first character and keeps the rest. `CamelizeFixesWord` proves that a word after an underscore is converted to exactly this. |
| Naming.ConvertSnakeToLowerCamelCase | src/index.js:25-38 | The loop over the split words returns the character-wise conversion `LowerCamel` of the input. |
| Naming.LowerCamelNoUnderscore | src/index.js:25-38 | The normalised name never contains `_`. |
| Naming.LowerCamelLength | src/index.js:25-38 | The normalised name is as long as the input less its underscores. |
| Naming.LowerCamelLeadingUnderscore | src/index.js:26-28 | `_X` and `X` normalise alike when `X` does not itself start with `_`. |
| Naming.LowerCamelSegments | src/index.js:30-35 | With a non-empty first segment, `first_second` becomes `first` lower-cased, then `second` lower-cased with its first character upper-cased. |
| Naming.LowerCamelEmptySegment | src/index.js:30-35 | An empty segment contributes nothing: after a non-empty first segment, `a__b` normalises as `a_b`. |
| Naming.CamelizeIgnoresCase | src/index.js:30 | Lower-casing before the conversion does not change it. |
| Params.RenderParam | src/index.js:74 | One argument: the name, `?` when optional, `: ` and the resolved type. `TransformNativeParamsSpec` states which entry each parameter becomes, and `RenderParamMarksOptional` that the `?` changes the text. |
| Params.ReduceParams | src/index.js:72-76 | The fold yields one rendered argument per parameter. |
| Params.TransformNativeParams | src/index.js:71-77 | One rendered argument per parameter; `TransformNativeParamsSpec` gives each entry. |
| Params.ReduceParamsSpec | src/index.js:71-77 | The i-th argument is the i-th parameter rendered, optional exactly when it and every later parameter are by reference. The window is open at the end exactly when all parameters are by reference. |
| Params.TransformNativeParamsSpec | src/index.js:71-77 | The output keeps length and order. The i-th entry is the name, `?` when optional, `: ` and the resolved type. |
| Params.OptionalSuffix | src/index.js:72-75 | Once a parameter is rendered optional, so is every later one: the optional parameters form a contiguous suffix. |
| Params.TrailingOptionalExample | src/index.js:71-77 | For `[a, b, c]` with only `a` by value, `b` and `c` are optional and `a` is not. |
| Params.BrokenWindowExample | src/index.js:71-77 | For `[a, b, c]` with only `b` by value, only `c` is optional, although `a` is by reference. |
| Results.StripBrackets | src/index.js:90 | One pair of brackets is removed exactly when they enclose the whole string and nothing between them is a line terminator; otherwise the string is left alone. |
| Results.ResolveAll | src/index.js:90 | The `map` resolves every piece in place and keeps the count; `ResultTypesOfList` applies it to the catalog's lists. |
| Results.DropLeadingVoid | src/index.js:91 | The list loses its first element exactly when that element is `void`; otherwise it is unchanged. |
| Results.ResultTypes | src/index.js:90-91 | The types of a `results` string; `ResultTypesOfList` and `ResultTypesOfTag` give them for a bracketed list and for a bare tag. |
| Results.FormatResult | src/index.js:93 | Never renders an empty type. `FormatResultBare` gives the single-type case, `FormatResultVoid` the `void` cases, and `FormatResultReadBack` the bracketed list. |
| Results.FormatResultBare | src/index.js:93 | A single non-empty type is rendered bare, without brackets. |
| Results.RenderResult | src/index.js:90-93 | The rendered result type is never empty. |
| Results.FormatResultReadBack | src/index.js:93 | Reading back a rendered list of plain types gives the list. |
| Results.FormatResultVoid | src/index.js:93 | `void` is rendered exactly when no type remains, or the only one left is empty or `void`. |
| Results.ResultTypesOfList | src/index.js:90-91 | A bracketed, comma-joined list of tags yields the tags resolved, less a leading `void`. |
| Results.ResultTypesOfTag | src/index.js:90-91 | A bare tag with no comma or leading bracket is resolved alone, less a `void`. |
| Results.RenderResultVoidExample | src/index.js:90-93 | `[void]` renders `void`. |
| Results.RenderResultPair | src/index.js:90-93 | `[a, b]`, with `a` not `void`, renders the tuple of both resolutions. |
| Results.RenderResultEntityIntExample | src/index.js:90-93 | `[Entity, int]` renders, character for character, the tuple of the `Entity` union type (with `number`) and `number`. |
| Results.RenderResultBareExample | src/index.js:90-93 | `Any` renders `any`. |
| Comments.EscapeClose | src/index.js:50 | Escaping keeps the first character of a non-empty line. |
| Comments.EscapeCloseIsReplaceAll | src/index.js:50 | Escaping is the global replace: the line split at every star-slash, joined again with star-backslash-slash. |
| Comments.EscapeCloseRemovesClose | src/index.js:50 | No star-slash is left in an escaped line. |
| Comments.EscapeCloseKeepsPlain | src/index.js:50 | A line without a star-slash is left unchanged. |
| Comments.IndentLine | src/index.js:46-53 | The `map` callback: it opens the block on the first line, which it leaves unescaped, and prefixes and escapes every later line. `BlockCommentLines` gives each resulting line, and `BlockCommentCloses` shows that only the first line can close the block. |
| Comments.ConvertToBlockComment | src/index.js:44-56 | The block; `BlockCommentLines` gives its lines and `BlockCommentCloses` its end. |
| Comments.BlockCommentLines | src/index.js:44-56 | For n comment lines the block has n + 2 lines: the opening, the prefixed first line, each later line prefixed and escaped, and the closing line. |
| Comments.OpeningNoClose | src/index.js:48 | The opening holds no star-slash and ends in a space. |
| Comments.BlockCommentCloses | src/index.js:47-55 | The block is its body, a line break and the closing line. The body holds a star-slash exactly when the first comment line does. |
| Declarations.RenderEntry | src/index.js:87-102 | The inner-loop body pushes the comment block, a line break and the signature, or only the signature. |
| Declarations.FunctionSignature | src/index.js:94 | The signature line; `RenderNativeShape` shows every entry ends with it. |
| Declarations.HasComment | src/index.js:96 | `comment.trim().length > 0`. `TrimNonEmpty` shows it holds exactly when the comment has a character that is not white space, and `RenderNativeShape` that it decides whether the block is emitted. |
| Declarations.RenderNative | src/index.js:96-102 | What is pushed for an entry; `RenderEntry` is proved to compute it and `RenderNativeShape` states its shape. |
| Declarations.FileHeader | src/index.js:105-113 | The header of the template, with the timestamp as a parameter; `GenerateDeclarations` puts it first. |
| Declarations.ModuleText | src/index.js:105-116 | The file text; `GenerateDeclarations` is proved to produce it for the rendered catalog. |
| Declarations.GenerateDeclarations | src/index.js:85-116 | The nested loops and the template produce the header, every entry rendered in catalog order joined by blank lines, and the footer. |
| Declarations.RenderNativeShape | src/index.js:97-102 | An entry ends with its signature line, and starts with the comment opening exactly when the trimmed comment is non-empty. |
| Declarations.CatalogOrder | src/index.js:85-114 | The module body of two catalogs read one after the other is the first body, a blank line, then the second. |
| Declarations.FlattenAppend | src/index.js:85-86 | The entries of two catalogs in sequence are the first catalog's entries followed by the second's. |
| Declarations.ParamListReadBack | src/index.js:94 | When no parameter name or type holds a comma, splitting the parameter list on `, ` gives back the rendered parameters. |

## Left out

- The fetch of the catalog with axios and its file cache
  (`getOrCacheNativeDbJson`, `getNativeDbJson`). These are network and
  file-system I/O.
- `JSON.parse` of the catalog. The model takes the parsed catalog as a
  sequence of namespaces, each a sequence of entries.
- The iteration order of `Object.values`, which puts integer-like keys
  first. The catalog is given in the order the loops visit it.
- `new Date().toLocaleString()`. The timestamp is a parameter
  (`generatedOn`) of `FileHeader` and `GenerateDeclarations`, because it
  is clock- and locale-dependent.
- `fs.outputFile` and the asynchronous call of `main()`. These are file
  output and the entry point. `GenerateDeclarations` returns the text
  that would be written.
- Unicode case mapping. `toLowerCase` and `toUpperCase` are modelled on
  ASCII letters only, and other characters are left unchanged.
- Regular expressions in general. The two used are written out as
  functions: `StripBrackets` (whose `.` excludes the four line
  terminators) and `EscapeClose` (the global star-slash replace).
- Prototype lookups on the type table, such as a tag named `constructor`.
  The table is a finite map.
- A `comment` that is not a string, where `trim?.()` yields `undefined`.
  Comments are strings in the model.
- Entries whose fields are missing from the parsed catalog, and a
  `results` that is not a string. These would throw in the code; every
  entry here has all four fields.
