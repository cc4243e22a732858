/** The result type of a signature (lines 90-93 of the generator): strip an
    enclosing `[...]`, split on `", "`, resolve each piece, drop a leading
    `void`, then render a tuple, a bare type or `void`. */
module Results {
  import opened JsString
  import opened NativeTypes

  /** The characters a regular-expression `.` does not match. */
  predicate IsLineTerminator(c: char)
  {
    c == '\n' || c == '\r' || c == '\U{2028}' || c == '\U{2029}'
  }

  /** `s.replace(/^\[(.*)\]$/, '$1')`: the brackets go only when they enclose
      the whole string and nothing between them is a line terminator. */
  function StripBrackets(s: string): (r: string)
    ensures r == s || s == "[" + r + "]"
    ensures (|s| >= 2 && s[0] == '[' && s[|s| - 1] == ']'
             && forall k :: 1 <= k < |s| - 1 ==> !IsLineTerminator(s[k]))
            <==> s == "[" + r + "]"
  {
    if |s| >= 2 && s[0] == '[' && s[|s| - 1] == ']'
       && forall k :: 1 <= k < |s| - 1 ==> !IsLineTerminator(s[k])
    then s[1..|s| - 1]
    else s
  }

  /** `.map((value) => transformNativeType(value))`. */
  function ResolveAll(ts: seq<string>): (r: seq<string>)
    ensures |r| == |ts|
    ensures forall k :: 0 <= k < |ts| ==> r[k] == TransformNativeType(ts[k])
  {
    seq(|ts|, k requires 0 <= k < |ts| => TransformNativeType(ts[k]))
  }

  /** `if (t[0] === 'void') t.shift()`: only a first element `void` goes. */
  function DropLeadingVoid(ts: seq<string>): (r: seq<string>)
    ensures r == ts || ts == ["void"] + r
    ensures (|ts| > 0 && ts[0] == "void") <==> ts == ["void"] + r
  {
    if |ts| > 0 && ts[0] == "void" then ts[1..] else ts
  }

  /** `transformedResult` after the `shift`. */
  function ResultTypes(results: string): seq<string>
  {
    DropLeadingVoid(ResolveAll(Split(StripBrackets(results), ", ")))
  }

  /** `t.length > 1 ? `[${t.join(', ')}]` : t[0] || 'void'`. */
  function FormatResult(ts: seq<string>): (r: string)
    ensures r != ""
  {
    if |ts| > 1 then "[" + Join(ts, ", ") + "]"
    else if |ts| == 1 && ts[0] != "" then ts[0]
    else "void"
  }

  /** The rendered result type of a catalog `results` string. */
  function RenderResult(results: string): (r: string)
    ensures r != ""
  {
    FormatResult(ResultTypes(results))
  }

  /** Reading a rendered result type back into its list of types: `void` is
      no type, a bracketed string a tuple, anything else one type. */
  function ReadResult(r: string): seq<string>
  {
    if r == "void" then []
    else if |r| >= 2 && r[0] == '[' && r[|r| - 1] == ']' then Split(r[1..|r| - 1], ", ")
    else [r]
  }

  /** A type that renders unambiguously: non-empty, not `void`, and with no
      comma and no bracket. */
  predicate PlainType(t: string)
  {
    t != "" && t != "void" && ',' !in t && '[' !in t
  }

  /** Rendering loses nothing on plain types: reading the rendered result
      back gives the list of types that was rendered. */
  lemma FormatResultReadBack(ts: seq<string>)
    requires forall k :: 0 <= k < |ts| ==> PlainType(ts[k])
    ensures ReadResult(FormatResult(ts)) == ts
  {
    var r := FormatResult(ts);
    if |ts| > 1 {
      assert r[1..|r| - 1] == Join(ts, ", ");
      assert r != "void" by { assert r[0] == '['; }
      SplitJoin(ts, ", ");
    } else if |ts| == 1 {
      assert ts[0][0] != '[';
    }
  }

  /** `void` is rendered exactly when no type remains, or the only one left
      is empty or is itself `void`. */
  lemma FormatResultVoid(ts: seq<string>)
    ensures FormatResult(ts) == "void" <==>
      |ts| == 0 || (|ts| == 1 && (ts[0] == "" || ts[0] == "void"))
  {
    if |ts| > 1 {
      assert FormatResult(ts)[0] == '[';
    }
  }

  /** A single non-empty type is rendered bare, without brackets. */
  lemma FormatResultBare(ts: seq<string>)
    requires |ts| == 1 && ts[0] != ""
    ensures FormatResult(ts) == ts[0]
  {
  }

  /** A bracketed, comma-joined list of catalog tags (the shape the catalog
      writes) yields the tags resolved, less a leading `void`. */
  lemma ResultTypesOfList(tags: seq<string>)
    requires |tags| >= 1
    requires forall k :: 0 <= k < |tags| ==> ',' !in tags[k]
    requires forall k, j :: 0 <= k < |tags| && 0 <= j < |tags[k]| ==> !IsLineTerminator(tags[k][j])
    ensures ResultTypes("[" + Join(tags, ", ") + "]") == DropLeadingVoid(ResolveAll(tags))
  {
    var inner := Join(tags, ", ");
    var s := "[" + inner + "]";
    JoinFree(tags, ", ", '\n');
    JoinFree(tags, ", ", '\r');
    JoinFree(tags, ", ", '\U{2028}');
    JoinFree(tags, ", ", '\U{2029}');
    assert s[1..|s| - 1] == inner;
    forall k | 1 <= k < |s| - 1 ensures !IsLineTerminator(s[k]) {
      assert s[k] == inner[k - 1];
    }
    SplitJoin(tags, ", ");
  }

  /** A single tag with no brackets, comma or line break is resolved alone. */
  lemma ResultTypesOfTag(tag: string)
    requires ',' !in tag && (tag == [] || tag[0] != '[')
    ensures ResultTypes(tag) == DropLeadingVoid([TransformNativeType(tag)])
  {
    SplitWhole(tag, ", ");
  }

  /** `[void]` renders `void`: the only type is dropped. */
  lemma RenderResultVoidExample()
    ensures RenderResult("[void]") == "void"
  {
    assert ResultTypes("[void]") == [] by {
      assert "[" + Join(["void"], ", ") + "]" == "[void]";
      ResultTypesOfList(["void"]);
      ResolveAllOne("void");
      VoidUnmapped();
    }
  }

  /** Resolving one tag resolves it. */
  lemma ResolveAllOne(t: string)
    ensures ResolveAll([t]) == [TransformNativeType(t)]
  {
  }

  /** `void` is not a tag of the table and resolves to itself. */
  lemma VoidUnmapped()
    ensures TransformNativeType("void") == "void"
  {
    ResolveSpec("void");
  }

  /** A pair of tags `[a, b]` renders as the tuple of their resolutions
      when the first is not `void`; `[Entity, int]`, for one, renders
      `[Entity | number, number]`. */
  lemma RenderResultPair(results: string, a: string, b: string)
    requires results == "[" + a + ", " + b + "]"
    requires ',' !in a && ',' !in b && a != "void"
    requires forall j :: 0 <= j < |a| ==> !IsLineTerminator(a[j])
    requires forall j :: 0 <= j < |b| ==> !IsLineTerminator(b[j])
    ensures RenderResult(results) == "[" + TransformNativeType(a) + ", " + TransformNativeType(b) + "]"
  {
    var types := [TransformNativeType(a), TransformNativeType(b)];
    ResultTypesOfPair(results, a, b);
    TupleFormat(types);
  }

  /** The types of a pair of tags are their resolutions. */
  lemma ResultTypesOfPair(results: string, a: string, b: string)
    requires results == "[" + a + ", " + b + "]"
    requires ',' !in a && ',' !in b && a != "void"
    requires forall j :: 0 <= j < |a| ==> !IsLineTerminator(a[j])
    requires forall j :: 0 <= j < |b| ==> !IsLineTerminator(b[j])
    ensures ResultTypes(results) == [TransformNativeType(a), TransformNativeType(b)]
  {
    assert ResultTypes(results) == DropLeadingVoid(ResolveAll([a, b])) by {
      BracketedPair(a, b);
      PairTagsClean(a, b);
      ResultTypesOfList([a, b]);
    }
    ResolvePairKept(a, b);
  }

  /** Resolving two tags of which the first is not `void` keeps both. */
  lemma ResolvePairKept(a: string, b: string)
    requires a != "void"
    ensures DropLeadingVoid(ResolveAll([a, b])) == [TransformNativeType(a), TransformNativeType(b)]
  {
    ResolveAllPair(a, b);
    ResolveNotVoid(a);
  }

  /** No table value is `void`, so only `void` resolves to `void`. */
  lemma ResolveNotVoid(t: string)
    requires t != "void"
    ensures TransformNativeType(t) != "void"
  {
    ResolveSpec(t);
    assert forall k | k in TransformedNativeTypes :: TransformedNativeTypes[k] != "void";
  }

  /** `[a, b]` is the bracketed join of the two tags. */
  lemma BracketedPair(a: string, b: string)
    ensures "[" + Join([a, b], ", ") + "]" == "[" + a + ", " + b + "]"
  {
    assert [a, b][1..] == [b];
  }

  /** The conditions on two tags, stated for the list of both. */
  lemma PairTagsClean(a: string, b: string)
    requires ',' !in a && ',' !in b
    requires forall j :: 0 <= j < |a| ==> !IsLineTerminator(a[j])
    requires forall j :: 0 <= j < |b| ==> !IsLineTerminator(b[j])
    ensures forall k :: 0 <= k < |[a, b]| ==> ',' !in [a, b][k]
    ensures forall k, j :: 0 <= k < |[a, b]| && 0 <= j < |[a, b][k]| ==> !IsLineTerminator([a, b][k][j])
  {
  }

  /** Resolving two tags resolves each. */
  lemma ResolveAllPair(a: string, b: string)
    ensures ResolveAll([a, b]) == [TransformNativeType(a), TransformNativeType(b)]
  {
  }

  /** Two types render as a bracketed tuple. */
  lemma TupleFormat(types: seq<string>)
    requires |types| == 2
    ensures FormatResult(types) == "[" + types[0] + ", " + types[1] + "]"
  {
    assert Join(types, ", ") == types[0] + ", " + types[1];
  }

  /** `Any` renders the bare type `any`. */
  lemma RenderResultBareExample()
    ensures RenderResult("Any") == "any"
  {
    ResultTypesOfTag("Any");
  }

  /** `[Entity, int]` renders `[Entity | number, number]`. */
  lemma RenderResultEntityIntExample()
    ensures RenderResult("[Entity, int]") == "[Entity | number, number]"
  {
    EntityIntResolved();
    RenderResultPair("[Entity, int]", "Entity", "int");
    EntityIntTuple("Entity | number", "number");
  }

  /** The resolutions of `Entity` and `int`. */
  lemma EntityIntResolved()
    ensures TransformNativeType("Entity") == "Entity | number"
    ensures TransformNativeType("int") == "number"
  {
    ResolveSpec("Entity");
    ResolveSpec("int");
  }

  /** The tuple text of the two resolutions. The strings come in as
      parameters fixed by the precondition, so that the concatenation of
      literals is checked here on its own rather than inside
      `RenderResultEntityIntExample`, where it is costly to prove. */
  lemma EntityIntTuple(x: string, y: string)
    requires x == "Entity | number" && y == "number"
    ensures "[" + x + ", " + y + "]" == "[Entity | number, number]"
  {
  }
}
