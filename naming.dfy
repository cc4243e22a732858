/** `convertSnakeToLowerCamelCase`: catalog names such as `GET_PLAYER_PED`
    or `_SET_HUD_COLOUR` become lowerCamelCase identifiers. */
module Naming {
  import opened Seqs
  import opened JsString

  /** `input.startsWith('_') ? input.slice(1) : input`: at most one leading
      underscore is dropped. */
  function StripLeadingUnderscore(s: string): (r: string)
    ensures r == s || s == "_" + r
    ensures (|s| > 0 && s[0] == '_') <==> s == "_" + r
  {
    if |s| > 0 && s[0] == '_' then s[1..] else s
  }

  /** The character-wise reading of the conversion: underscores disappear,
      a character right after an underscore is upper-cased and every other
      character is lower-cased. `up` records that the previous character was
      an underscore. */
  function Camelize(t: string, up: bool): string
  {
    if t == [] then []
    else if t[0] == '_' then Camelize(t[1..], true)
    else [if up then UpperChar(t[0]) else LowerChar(t[0])] + Camelize(t[1..], false)
  }

  /** The normalised name of a catalog name. */
  function LowerCamel(input: string): string
  {
    Camelize(StripLeadingUnderscore(input), false)
  }

  /** `w.charAt(0).toUpperCase() + w.slice(1)`. */
  function Capitalize(w: string): (r: string)
    ensures |r| == |w|
    ensures |w| > 0 ==> r[0] == UpperChar(w[0]) && r[1..] == w[1..]
  {
    if w == [] then [] else [UpperChar(w[0])] + w[1..]
  }

  /** `convertSnakeToLowerCamelCase`: lower-case, split on `_`, keep the
      first word and append every later word capitalised. The result is the
      character-wise conversion `LowerCamel`. */
  method ConvertSnakeToLowerCamelCase(input: string) returns (result: string)
    ensures result == LowerCamel(input)
  {
    var s := input;
    if |s| > 0 && s[0] == '_' {
      s := s[1..];
    }
    var lower := ToLowerCase(s);
    var words := Split(lower, "_");
    WordsAreLowered(lower);
    CamelizeFixesWord(words[0]);
    result := words[0];
    for i := 1 to |words|
      invariant result == Camelize(Join(words[..i], "_"), false)
    {
      CamelizeNextWord(words, i);
      result := result + Capitalize(words[i]);
    }
    TakeAll(words);
    JoinSplit(lower, "_");
    CamelizeIgnoresCase(s, false);
  }

  // Lemmas the method's proof rests on.

  /** A string every character of which the ASCII lower-casing leaves
      alone. */
  predicate IsLowered(w: string)
  {
    forall k :: 0 <= k < |w| ==> LowerChar(w[k]) == w[k]
  }

  /** The words of a lower-cased name are lower-cased and free of `_`. */
  lemma WordsAreLowered(lower: string)
    requires IsLowered(lower)
    ensures forall k :: 0 <= k < |Split(lower, "_")| ==>
      IsLowered(Split(lower, "_")[k]) && '_' !in Split(lower, "_")[k]
  {
    SplitPieceChars(lower, "_");
    SplitPiecesFree(lower, "_");
    var r := Split(lower, "_");
    forall k, j | 0 <= k < |r| && 0 <= j < |r[k]| ensures LowerChar(r[k][j]) == r[k][j] {
      assert r[k][j] in lower;
    }
  }

  /** One more word of the split: the conversion grows by that word
      capitalised. */
  lemma CamelizeNextWord(words: seq<string>, i: nat)
    requires 1 <= i < |words|
    requires IsLowered(words[i]) && '_' !in words[i]
    ensures Camelize(Join(words[..i + 1], "_"), false) ==
      Camelize(Join(words[..i], "_"), false) + Capitalize(words[i])
  {
    JoinAppend(words[..i], [words[i]], "_");
    TakeNext(words, i);
    var done := Join(words[..i], "_");
    AppendAssoc(done, "_", words[i]);
    CamelizeAppend(done, "_" + words[i], false);
    CamelizeFixesWord(words[i]);
  }

  /** A lower-cased word without `_` converts to itself, and to its
      capitalisation right after an underscore. */
  lemma {:induction false} CamelizeFixesWord(w: string)
    requires IsLowered(w) && '_' !in w
    ensures Camelize(w, false) == w
    ensures Camelize("_" + w, false) == Capitalize(w)
    ensures Camelize("_" + w, true) == Capitalize(w)
    decreases |w|
  {
    if w != [] {
      CamelizeFixesWord(w[1..]);
      TailAppend("_", w);
      HeadTail(w);
    }
  }

  /** Converting a concatenation converts each part, the second part
      starting in the state the first one ends in. */
  lemma {:induction false} CamelizeAppend(a: string, b: string, up: bool)
    ensures Camelize(a + b, up) ==
      Camelize(a, up) + Camelize(b, if a == [] then up else a[|a| - 1] == '_')
    decreases |a|
  {
    if a == [] {
      assert a + b == b;
    } else {
      TailAppend(a, b);
      CamelizeAppend(a[1..], b, a[0] == '_');
    }
  }

  /** Lower-casing first does not change the conversion (ASCII case
      mapping: upper of lower is upper, lower of lower is lower). */
  lemma {:induction false} CamelizeIgnoresCase(t: string, up: bool)
    ensures Camelize(ToLowerCase(t), up) == Camelize(t, up)
    decreases |t|
  {
    if t != [] {
      var l := ToLowerCase(t);
      assert l[1..] == ToLowerCase(t[1..]);
      CamelizeIgnoresCase(t[1..], true);
      CamelizeIgnoresCase(t[1..], false);
    }
  }

  // Properties of the normalised name.

  /** The number of underscores in `s`. */
  function CountUnderscores(s: string): nat
  {
    if s == [] then 0 else (if s[0] == '_' then 1 else 0) + CountUnderscores(s[1..])
  }

  /** No underscore survives the conversion. */
  lemma {:induction false} CamelizeNoUnderscore(t: string, up: bool)
    ensures '_' !in Camelize(t, up)
    decreases |t|
  {
    if t != [] {
      CamelizeNoUnderscore(t[1..], t[0] == '_');
    }
  }

  /** The normalised name never contains `_`. */
  lemma LowerCamelNoUnderscore(input: string)
    ensures '_' !in LowerCamel(input)
  {
    CamelizeNoUnderscore(StripLeadingUnderscore(input), false);
  }

  lemma {:induction false} CamelizeLength(t: string, up: bool)
    ensures |Camelize(t, up)| == |t| - CountUnderscores(t)
    decreases |t|
  {
    if t != [] {
      CamelizeLength(t[1..], t[0] == '_');
    }
  }

  /** Each character is mapped to one character, so the normalised name is
      the input less its underscores. */
  lemma LowerCamelLength(input: string)
    ensures |LowerCamel(input)| == |input| - CountUnderscores(input)
  {
    CamelizeLength(StripLeadingUnderscore(input), false);
    if |input| > 0 && input[0] == '_' {
      assert CountUnderscores(input) == 1 + CountUnderscores(input[1..]);
    }
  }

  /** One leading underscore is ignored: `_X` and `X` normalise alike when
      `X` does not itself start with `_`. */
  lemma LowerCamelLeadingUnderscore(s: string)
    requires s == [] || s[0] != '_'
    ensures LowerCamel("_" + s) == LowerCamel(s)
  {
    assert ("_" + s)[1..] == s;
  }

  /** Each segment after the first starts upper-case: `first_second`, with
      a non-empty first segment, converts to the first segment lower-cased
      followed by the second lower-cased and capitalised. */
  lemma LowerCamelSegments(first: string, second: string)
    requires first != [] && '_' !in first && '_' !in second
    ensures LowerCamel(first + "_" + second) == ToLowerCase(first) + Capitalize(ToLowerCase(second))
  {
    AppendAssoc(first, "_", second);
    assert StripLeadingUnderscore(first + "_" + second) == first + "_" + second;
    CamelizeIgnoresCase(first, false);
    CamelizeIgnoresCase(second, true);
    assert IsLowered(ToLowerCase(first)) && IsLowered(ToLowerCase(second));
    assert '_' !in ToLowerCase(first) && '_' !in ToLowerCase(second);
    CamelizeFixesWord(ToLowerCase(first));
    CamelizeFixesWord(ToLowerCase(second));
    CamelizeAppend(first, "_" + second, false);
    assert Camelize("_" + second, false) == Camelize(second, true);
    assert Camelize("_" + ToLowerCase(second), false) == Camelize(ToLowerCase(second), true);
  }

  /** An empty segment contributes nothing: a doubled underscore converts
      as a single one. */
  lemma CamelizeEmptySegment(a: string, b: string, up: bool)
    ensures Camelize(a + "__" + b, up) == Camelize(a + "_" + b, up)
  {
    AppendAssoc(a, "__", b);
    AppendAssoc(a, "_", b);
    CamelizeAppend(a, "__" + b, up);
    CamelizeAppend(a, "_" + b, up);
    TailAppend("__", b);
    TailAppend("_", b);
  }

  /** The same for the normalised name, once a first segment is present. */
  lemma LowerCamelEmptySegment(a: string, b: string)
    requires a != []
    ensures LowerCamel(a + "__" + b) == LowerCamel(a + "_" + b)
  {
    AppendAssoc(a, "__", b);
    AppendAssoc(a, "_", b);
    TailAppend(a, "__" + b);
    TailAppend(a, "_" + b);
    if a[0] == '_' {
      CamelizeEmptySegment(a[1..], b, false);
      AppendAssoc(a[1..], "__", b);
      AppendAssoc(a[1..], "_", b);
    } else {
      CamelizeEmptySegment(a, b, false);
    }
  }
}
