/** The generation loop of `main`: every catalog entry becomes an exported
    function signature, preceded by its documentation block when it has
    one, and the signatures are wrapped in the `@altv/natives` module. */
module Declarations {
  import opened Seqs
  import opened JsString
  import opened Naming
  import opened Params
  import opened Results
  import opened Comments

  /** A catalog entry `{name, params, results, comment}`. */
  datatype NativeEntry = NativeEntry(name: string, params: seq<Param>, results: string, comment: string)

  /** The parsed catalog in `Object.values` order: its namespaces, each with
      its entries. */
  type Catalog = seq<seq<NativeEntry>>

  /** The signature line of an entry. */
  function FunctionSignature(e: NativeEntry): string
  {
    "  export function " + LowerCamel(e.name) + "(" + Join(TransformNativeParams(e.params), ", ")
    + "): " + RenderResult(e.results) + ";"
  }

  /** `comment.trim().length > 0`. */
  predicate HasComment(e: NativeEntry)
  {
    |Trim(e.comment)| > 0
  }

  /** What is pushed onto `nativesList` for an entry. */
  function RenderNative(e: NativeEntry): string
  {
    if HasComment(e) then ConvertToBlockComment(e.comment) + "\n" + FunctionSignature(e)
    else FunctionSignature(e)
  }

  /** The entries of a catalog, namespace after namespace. */
  function Flatten(c: Catalog): seq<NativeEntry>
  {
    if c == [] then [] else Flatten(c[..|c| - 1]) + c[|c| - 1]
  }

  /** Every entry rendered, in order. */
  function RenderAll(es: seq<NativeEntry>): (r: seq<string>)
    ensures |r| == |es|
    ensures forall k :: 0 <= k < |es| ==> r[k] == RenderNative(es[k])
  {
    seq(|es|, k requires 0 <= k < |es| => RenderNative(es[k]))
  }

  /** The text before the joined signatures; `generatedOn` stands for the
      `toLocaleString()` of the current date. */
  function FileHeader(generatedOn: string): string
  {
    "// This file was generated on " + generatedOn + " - DO NOT MODIFY MANUALLY\n"
    + "\n"
    + "/// <reference types=\"../client/index.d.ts\" />\n"
    + "\n"
    + "/**\n"
    + " * @module @altv/natives\n"
    + " */\n"
    + "declare module \"@altv/natives\" {\n"
    + "  import { Entity, Player, Vector3, Vehicle } from \"@altv/client\";\n"
    + "\n"
  }

  /** The text after the joined signatures. */
  const FileFooter: string := "\n}\n"

  /** The declaration file for the rendered entries. */
  function ModuleText(generatedOn: string, natives: seq<string>): string
  {
    FileHeader(generatedOn) + Join(natives, "\n\n") + FileFooter
  }

  /** The body of the inner loop of `main` for one entry: the name, the
      result type (with the `shift` of a leading `void`), the signature line,
      and the comment block when the trimmed comment is non-empty. */
  method RenderEntry(native: NativeEntry) returns (entry: string)
    ensures entry == RenderNative(native)
  {
    var nativeName := ConvertSnakeToLowerCamelCase(native.name);
    var transformedResult := ResolveAll(Split(StripBrackets(native.results), ", "));
    if transformedResult[0] == "void" {
      transformedResult := transformedResult[1..];
    }
    var resultStr := FormatResult(transformedResult);
    var functionSignature := "  export function " + nativeName + "("
      + Join(TransformNativeParams(native.params), ", ") + "): " + resultStr + ";";
    if |Trim(native.comment)| > 0 {
      var commentBlock := ConvertToBlockComment(native.comment);
      entry := commentBlock + "\n" + functionSignature;
    } else {
      entry := functionSignature;
    }
  }

  /** The body of `main` after the catalog is parsed: the two nested loops
      over namespaces and entries push one rendered entry each onto
      `nativesList`, which is then joined into the module text. */
  method GenerateDeclarations(catalog: Catalog, generatedOn: string) returns (content: string)
    ensures content == ModuleText(generatedOn, RenderAll(Flatten(catalog)))
  {
    var nativesList: seq<string> := [];
    for i := 0 to |catalog|
      invariant nativesList == RenderAll(Flatten(catalog[..i]))
    {
      var natives := catalog[i];
      ghost var prior := Flatten(catalog[..i]);
      assert prior + natives[..0] == prior by {
        assert natives[..0] == [];
      }
      for j := 0 to |natives|
        invariant nativesList == RenderAll(prior + natives[..j])
      {
        var entry := RenderEntry(natives[j]);
        nativesList := nativesList + [entry];
        RenderNextEntry(prior, natives, j);
      }
      FlattenNext(catalog, i);
    }
    TakeAll(catalog);
    content := FileHeader(generatedOn) + Join(nativesList, "\n\n") + FileFooter;
  }

  /** One more entry of the current namespace is rendered. */
  lemma RenderNextEntry(prior: seq<NativeEntry>, natives: seq<NativeEntry>, j: nat)
    requires j < |natives|
    ensures RenderAll(prior + natives[..j]) + [RenderNative(natives[j])] == RenderAll(prior + natives[..j + 1])
  {
    RenderAllSnoc(prior + natives[..j], natives[j]);
    TakeNext(natives, j);
    AppendAssoc(prior, natives[..j], [natives[j]]);
  }

  /** One more namespace is read. */
  lemma FlattenNext(catalog: Catalog, i: nat)
    requires i < |catalog|
    ensures Flatten(catalog[..i + 1]) == Flatten(catalog[..i]) + catalog[i][..|catalog[i]|]
  {
    assert catalog[i][..|catalog[i]|] == catalog[i];
    assert catalog[..i + 1][..i] == catalog[..i];
  }

  /** Rendering one more entry appends its rendering. */
  lemma RenderAllSnoc(es: seq<NativeEntry>, e: NativeEntry)
    ensures RenderAll(es + [e]) == RenderAll(es) + [RenderNative(e)]
  {
    RenderAllAppend(es, [e]);
    RenderAllOne(e);
  }

  /** Rendering a single entry. */
  lemma RenderAllOne(e: NativeEntry)
    ensures RenderAll([e]) == [RenderNative(e)]
  {
  }

  /** Rendering respects concatenation. */
  lemma RenderAllAppend(xs: seq<NativeEntry>, ys: seq<NativeEntry>)
    ensures RenderAll(xs + ys) == RenderAll(xs) + RenderAll(ys)
  {
    var l, r := RenderAll(xs + ys), RenderAll(xs) + RenderAll(ys);
    forall k | 0 <= k < |l| ensures l[k] == r[k] {
      IndexAppend(xs, ys, k);
      IndexAppend(RenderAll(xs), RenderAll(ys), k);
    }
  }

  /** The entries of two catalogs read one after the other are the first
      catalog's entries followed by the second's. */
  lemma {:induction false} FlattenAppend(a: Catalog, b: Catalog)
    ensures Flatten(a + b) == Flatten(a) + Flatten(b)
    decreases |b|
  {
    if b == [] {
      assert a + b == a;
    } else {
      var init := b[..|b| - 1];
      FlattenAppend(a, init);
      DropLastAppend(a, b);
      AppendAssoc(Flatten(a), Flatten(init), b[|b| - 1]);
    }
  }

  /** Entries appear in catalog order: the module body of two catalogs read
      one after the other is the first body, a blank line, then the second. */
  lemma CatalogOrder(a: Catalog, b: Catalog)
    requires |Flatten(a)| > 0 && |Flatten(b)| > 0
    ensures Join(RenderAll(Flatten(a + b)), "\n\n") ==
      Join(RenderAll(Flatten(a)), "\n\n") + "\n\n" + Join(RenderAll(Flatten(b)), "\n\n")
  {
    FlattenAppend(a, b);
    RenderAllAppend(Flatten(a), Flatten(b));
    JoinAppend(RenderAll(Flatten(a)), RenderAll(Flatten(b)), "\n\n");
  }

  /** An entry's text ends with its signature line, and is preceded by a
      documentation block (which starts with the opening line) exactly when the trimmed
      comment is non-empty. */
  lemma RenderNativeShape(e: NativeEntry)
    ensures |FunctionSignature(e)| <= |RenderNative(e)|
    ensures RenderNative(e)[|RenderNative(e)| - |FunctionSignature(e)|..] == FunctionSignature(e)
    ensures HasComment(e) <==> |RenderNative(e)| >= 5 && RenderNative(e)[..5] == "  /**"
  {
    var sig := FunctionSignature(e);
    SignatureStart(e);
    if HasComment(e) {
      var block := ConvertToBlockComment(e.comment);
      BlockStartsOpen(e.comment);
      PrefixedText(block + "\n", sig, 5);
      SuffixedText(block + "\n", sig);
    }
  }

  /** A signature line starts with its indentation and `export`. */
  lemma SignatureStart(e: NativeEntry)
    ensures |FunctionSignature(e)| >= 5 && FunctionSignature(e)[..5] == "  exp"
  {
  }

  /** A block comment starts with its opening line. */
  lemma BlockStartsOpen(input: string)
    ensures |ConvertToBlockComment(input)| >= 5 && ConvertToBlockComment(input)[..5] == "  /**"
  {
    var lines := Split(input, "\n");
    var all := IndentLines(lines) + [Closing];
    assert all[0] == Opening + lines[0];
    if |all| > 1 {
      assert Join(all, "\n") == all[0] + "\n" + Join(all[1..], "\n");
    }
    assert Opening[..5] == "  /**";
  }

  /** The parameter list inside the parentheses reads back as the rendered
      parameters when no parameter name or type holds a comma. */
  lemma ParamListReadBack(e: NativeEntry)
    requires |e.params| > 0
    requires forall k :: 0 <= k < |e.params| ==> ',' !in e.params[k].name && ',' !in e.params[k].typ
    ensures Split(Join(TransformNativeParams(e.params), ", "), ", ") == TransformNativeParams(e.params)
  {
    var args := TransformNativeParams(e.params);
    forall k | 0 <= k < |args| ensures ',' !in args[k] {
      ParamArgFree(e.params, k);
    }
    SplitJoin(args, ", ");
  }

  /** A rendered parameter holds a comma only when its name or type does. */
  lemma ParamArgFree(ps: seq<Param>, k: nat)
    requires k < |ps| && ',' !in ps[k].name && ',' !in ps[k].typ
    ensures ',' !in TransformNativeParams(ps)[k]
  {
    ReduceParamsAt(ps, k);
    CommaFreeResolved(ps[k].typ);
    RenderParamFree(ps[k], AllRefFrom(ps, k));
  }

  /** Resolving a comma-free tag gives a comma-free type. */
  lemma CommaFreeResolved(t: string)
    requires ',' !in t
    ensures ',' !in NativeTypes.TransformNativeType(t)
  {
    NativeTypes.ResolveKeepsFree(t, ',');
  }

  /** A parameter renders without a comma when its name and resolved type
      have none. */
  lemma RenderParamFree(p: Param, isOptional: bool)
    requires ',' !in p.name && ',' !in NativeTypes.TransformNativeType(p.typ)
    ensures ',' !in RenderParam(p, isOptional)
  {
  }
}
