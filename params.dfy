/** `transformNativeParams`: the parameter list of a signature, where only a
    trailing run of by-reference parameters is marked optional. */
module Params {
  import opened NativeTypes

  /** A catalog parameter `{name, type, ref}`. */
  datatype Param = Param(name: string, typ: string, isRef: bool)

  /** The fold's accumulator `{args, canBeOptional}`. */
  datatype Acc = Acc(args: seq<string>, canBeOptional: bool)

  /** `${name}${isOptional ? '?' : ''}: ${transformNativeType(type)}`. */
  function RenderParam(p: Param, isOptional: bool): string
  {
    p.name + (if isOptional then "?" else "") + ": " + TransformNativeType(p.typ)
  }

  /** The `reduceRight` fold: `ps[1..]` is folded first (it lies to the right
      of `ps[0]`), then `ps[0]` is prepended, optional exactly when it is
      by reference and the window is still open; the window stays open only
      while parameters are by reference. */
  function ReduceParams(ps: seq<Param>): (r: Acc)
    ensures |r.args| == |ps|
  {
    if ps == [] then Acc([], true)
    else
      var acc := ReduceParams(ps[1..]);
      var isOptional := ps[0].isRef && acc.canBeOptional;
      Acc([RenderParam(ps[0], isOptional)] + acc.args,
          if acc.canBeOptional then ps[0].isRef else false)
  }

  /** `transformNativeParams(params)`: the fold's rendered arguments. */
  function TransformNativeParams(ps: seq<Param>): (r: seq<string>)
    ensures |r| == |ps|
  {
    ReduceParams(ps).args
  }

  /** Parameter `i` and every later one are passed by reference. */
  predicate AllRefFrom(ps: seq<Param>, i: nat)
  {
    forall j :: i <= j < |ps| ==> ps[j].isRef
  }

  /** The fold renders the i-th parameter in place, optional exactly when it
      and every later parameter are by reference; the window is still open
      at the end exactly when every parameter is by reference. */
  lemma ReduceParamsSpec(ps: seq<Param>)
    ensures ReduceParams(ps).canBeOptional == AllRefFrom(ps, 0)
    ensures |ReduceParams(ps).args| == |ps|
    ensures forall i :: 0 <= i < |ps| ==> ReduceParams(ps).args[i] == RenderParam(ps[i], AllRefFrom(ps, i))
  {
    ReduceParamsOpen(ps);
    forall i | 0 <= i < |ps| ensures ReduceParams(ps).args[i] == RenderParam(ps[i], AllRefFrom(ps, i)) {
      ReduceParamsAt(ps, i);
    }
  }

  /** The window is still open after the fold exactly when every parameter
      is by reference. */
  lemma {:induction false} ReduceParamsOpen(ps: seq<Param>)
    ensures ReduceParams(ps).canBeOptional == AllRefFrom(ps, 0)
  {
    if ps != [] {
      ReduceParamsOpen(ps[1..]);
      AllRefHead(ps);
    }
  }

  /** The i-th argument is the i-th parameter, optional exactly when it and
      every later parameter are by reference. */
  lemma {:induction false} ReduceParamsAt(ps: seq<Param>, i: nat)
    requires i < |ps|
    ensures ReduceParams(ps).args[i] == RenderParam(ps[i], AllRefFrom(ps, i))
  {
    if i == 0 {
      ReduceParamsOpen(ps[1..]);
      AllRefHead(ps);
    } else {
      ReduceParamsAt(ps[1..], i - 1);
      AllRefShift(ps, i);
      ReduceParamsLater(ps, i);
    }
  }

  /** Every argument after the first is the fold's argument for the rest. */
  lemma ReduceParamsLater(ps: seq<Param>, i: nat)
    requires 1 <= i < |ps|
    ensures ReduceParams(ps).args[i] == ReduceParams(ps[1..]).args[i - 1]
      && ps[i] == ps[1..][i - 1]
  {
  }

  /** All parameters are by reference exactly when the first is and all
      the rest are. */
  lemma AllRefHead(ps: seq<Param>)
    requires |ps| > 0
    ensures AllRefFrom(ps, 0) == (ps[0].isRef && AllRefFrom(ps[1..], 0))
  {
    if ps[0].isRef && AllRefFrom(ps[1..], 0) {
      forall j | 0 <= j < |ps| ensures ps[j].isRef {
        if j > 0 { assert ps[j] == ps[1..][j - 1]; }
      }
    }
  }

  /** Dropping the first parameter shifts every later position by one. */
  lemma AllRefShift(ps: seq<Param>, i: nat)
    requires 1 <= i <= |ps|
    ensures AllRefFrom(ps, i) == AllRefFrom(ps[1..], i - 1)
  {
    var tail := ps[1..];
    if AllRefFrom(tail, i - 1) {
      forall j | i <= j < |ps| ensures ps[j].isRef {
        assert ps[j] == tail[j - 1];
      }
    }
    if AllRefFrom(ps, i) {
      forall j | i - 1 <= j < |tail| ensures tail[j].isRef {
        assert tail[j] == ps[j + 1];
      }
    }
  }

  /** Rendering keeps length and order: the i-th output is the i-th
      parameter's name, `?` when it is optional, `: ` and its resolved
      type. */
  lemma TransformNativeParamsSpec(ps: seq<Param>)
    ensures |TransformNativeParams(ps)| == |ps|
    ensures forall i :: 0 <= i < |ps| ==>
      TransformNativeParams(ps)[i] == RenderParam(ps[i], AllRefFrom(ps, i))
  {
    ReduceParamsSpec(ps);
  }

  /** The optional parameters form a contiguous suffix: once parameter i
      is rendered optional, so is every later parameter j. */
  lemma OptionalSuffix(ps: seq<Param>, i: nat, j: nat)
    requires i <= j < |ps|
    requires TransformNativeParams(ps)[i] == RenderParam(ps[i], true)
    ensures TransformNativeParams(ps)[j] == RenderParam(ps[j], true)
  {
    ReduceParamsSpec(ps);
    RenderParamMarksOptional(ps[i]);
    assert AllRefFrom(ps, i);
  }

  /** The `?` mark makes an optional rendering differ from the plain one. */
  lemma RenderParamMarksOptional(p: Param)
    ensures RenderParam(p, true) != RenderParam(p, false)
  {
    var plain := RenderParam(p, false);
    var opt := RenderParam(p, true);
    assert |opt| == |plain| + 1;
  }

  /** Example: with `[a, b, c]` where only `a` is by value, `b` and `c` are
      optional. */
  lemma TrailingOptionalExample(ta: string, tb: string, tc: string)
    ensures TransformNativeParams([Param("a", ta, false), Param("b", tb, true), Param("c", tc, true)])
      == [RenderParam(Param("a", ta, false), false), RenderParam(Param("b", tb, true), true),
          RenderParam(Param("c", tc, true), true)]
  {
    var ps := [Param("a", ta, false), Param("b", tb, true), Param("c", tc, true)];
    TransformNativeParamsSpec(ps);
    assert !AllRefFrom(ps, 0) && AllRefFrom(ps, 1) && AllRefFrom(ps, 2);
  }

  /** Example: with only `b` by value, only `c` is optional, although `a`
      is by reference. */
  lemma BrokenWindowExample(ta: string, tb: string, tc: string)
    ensures TransformNativeParams([Param("a", ta, true), Param("b", tb, false), Param("c", tc, true)])
      == [RenderParam(Param("a", ta, true), false), RenderParam(Param("b", tb, false), false),
          RenderParam(Param("c", tc, true), true)]
  {
    var ps := [Param("a", ta, true), Param("b", tb, false), Param("c", tc, true)];
    TransformNativeParamsSpec(ps);
    assert !ps[1].isRef;
    assert !AllRefFrom(ps, 0) && !AllRefFrom(ps, 1) && AllRefFrom(ps, 2);
  }
}
