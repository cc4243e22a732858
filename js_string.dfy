/** The JavaScript string built-ins the generator relies on, written out as
    functions over `seq<char>`: `split` and `join` with a literal separator,
    ASCII `toLowerCase` / `toUpperCase`, `trim`, and the search for the
    block-comment terminator (a star followed by a slash). */
module JsString {
  import opened Seqs

  /** `s.split(sep)` for a non-empty literal separator: the pieces between the
      left-to-right, non-overlapping occurrences of `sep`. There is always at
      least one piece (`"".split(sep)` is `[""]`). */
  function Split(s: string, sep: string): (r: seq<string>)
    requires |sep| > 0
    ensures |r| >= 1
    decreases |s|
  {
    if |s| < |sep| then [s]
    else if s[..|sep|] == sep then [""] + Split(s[|sep|..], sep)
    else
      var rest := Split(s[1..], sep);
      [[s[0]] + rest[0]] + rest[1..]
  }

  /** `xs.join(sep)`. */
  function Join(xs: seq<string>, sep: string): string
  {
    if |xs| == 0 then ""
    else if |xs| == 1 then xs[0]
    else xs[0] + sep + Join(xs[1..], sep)
  }

  /** Joining the pieces of a split with the same separator gives back the
      original string. */
  lemma {:induction false} JoinSplit(s: string, sep: string)
    requires |sep| > 0
    ensures Join(Split(s, sep), sep) == s
    decreases |s|
  {
    if |s| < |sep| {
    } else if s[..|sep|] == sep {
      JoinSplit(s[|sep|..], sep);
      JoinSplitCut(s, sep);
    } else {
      JoinSplit(s[1..], sep);
      JoinSplitShift(s, sep);
    }
  }

  /** The step of `JoinSplit` where the string starts with the separator. */
  lemma JoinSplitCut(s: string, sep: string)
    requires |sep| > 0 && |s| >= |sep| && s[..|sep|] == sep
    requires Join(Split(s[|sep|..], sep), sep) == s[|sep|..]
    ensures Join(Split(s, sep), sep) == s
  {
    JoinEmptyHead(Split(s[|sep|..], sep), sep);
    PrefixSuffix(s, |sep|);
  }

  /** An empty first piece contributes only its separator. */
  lemma JoinEmptyHead(rest: seq<string>, sep: string)
    requires |rest| >= 1
    ensures Join([""] + rest, sep) == sep + Join(rest, sep)
  {
    assert ([""] + rest)[1..] == rest;
  }

  /** The step of `JoinSplit` where the first character starts the first
      piece. */
  lemma JoinSplitShift(s: string, sep: string)
    requires |sep| > 0 && |s| >= |sep| && s[..|sep|] != sep
    requires Join(Split(s[1..], sep), sep) == s[1..]
    ensures Join(Split(s, sep), sep) == s
  {
    var rest := Split(s[1..], sep);
    assert Split(s, sep) == [[s[0]] + rest[0]] + rest[1..];
    JoinExtendHead([s[0]], rest[0], rest[1..], sep);
    HeadTail(rest);
    HeadTail(s);
  }

  /** Text put in front of the first piece ends up in front of the join. */
  lemma JoinExtendHead(c: string, x: string, tail: seq<string>, sep: string)
    ensures Join([c + x] + tail, sep) == c + Join([x] + tail, sep)
  {
    if |tail| > 0 {
      assert ([c + x] + tail)[1..] == tail;
      assert ([x] + tail)[1..] == tail;
    }
  }

  /** A string free of the separator's first character is one piece. */
  lemma {:induction false} SplitWhole(x: string, sep: string)
    requires |sep| > 0 && sep[0] !in x
    ensures Split(x, sep) == [x]
    decreases |x|
  {
    if |x| >= |sep| {
      assert x[..|sep|][0] == x[0];
      SplitWhole(x[1..], sep);
      assert [x[0]] + x[1..] == x;
    }
  }

  /** A piece free of the separator's first character, followed by the
      separator, is cut off as the first piece. */
  lemma {:induction false} SplitAfterPiece(x: string, sep: string, rest: string)
    requires |sep| > 0 && sep[0] !in x
    ensures Split(x + sep + rest, sep) == [x] + Split(rest, sep)
    decreases |x|
  {
    var s := x + sep + rest;
    if |x| == 0 {
      assert s == sep + rest;
      assert s[..|sep|] == sep && s[|sep|..] == rest;
    } else {
      assert s[..|sep|][0] == x[0];
      assert s[1..] == x[1..] + sep + rest;
      SplitAfterPiece(x[1..], sep, rest);
      assert [x[0]] + x[1..] == x;
    }
  }

  /** Splitting a join gives back the pieces, provided no piece contains the
      separator's first character. */
  lemma {:induction false} SplitJoin(xs: seq<string>, sep: string)
    requires |sep| > 0 && |xs| >= 1
    requires forall k :: 0 <= k < |xs| ==> sep[0] !in xs[k]
    ensures Split(Join(xs, sep), sep) == xs
    decreases |xs|
  {
    if |xs| == 1 {
      SplitWhole(xs[0], sep);
    } else {
      SplitJoin(xs[1..], sep);
      SplitAfterPiece(xs[0], sep, Join(xs[1..], sep));
      assert [xs[0]] + xs[1..] == xs;
    }
  }

  /** `sep` occurs in `t` as a contiguous run of characters. */
  predicate HasInfix(t: string, sep: string)
  {
    exists i :: 0 <= i && i + |sep| <= |t| && t[i..][..|sep|] == sep
  }

  /** No piece of a split contains the separator. */
  lemma {:induction false} SplitPiecesSepFree(s: string, sep: string)
    requires |sep| > 0
    ensures forall k :: 0 <= k < |Split(s, sep)| ==> !HasInfix(Split(s, sep)[k], sep)
    decreases |s|
  {
    var r := Split(s, sep);
    if |s| < |sep| {
      assert r == [s];
    } else if s[..|sep|] == sep {
      SplitPiecesSepFree(s[|sep|..], sep);
      assert r[0] == "";
      assert forall k :: 1 <= k < |r| ==> r[k] == Split(s[|sep|..], sep)[k - 1];
    } else {
      SplitPiecesSepFree(s[1..], sep);
      var rest := Split(s[1..], sep);
      assert forall k :: 1 <= k < |r| ==> r[k] == rest[k];
      SplitHeadPrefix(s, sep);
      assert r[0] == [s[0]] + rest[0];
      FirstPieceSepFree(s, sep, r[0], rest[0]);
    }
  }

  /** The first piece of a split is a prefix of the string. */
  lemma {:induction false} SplitHeadPrefix(s: string, sep: string)
    requires |sep| > 0
    ensures |Split(s, sep)[0]| <= |s| && Split(s, sep)[0] == s[..|Split(s, sep)[0]|]
    decreases |s|
  {
    if |s| >= |sep| && s[..|sep|] != sep {
      SplitHeadPrefix(s[1..], sep);
      var q := Split(s[1..], sep)[0];
      assert Split(s, sep)[0] == [s[0]] + q;
      PrefixOfTail(s, |q|);
    }
  }

  /** The step of `SplitPiecesSepFree` where the first character starts the
      first piece `p`: `p` is a prefix of `s`, which does not start with the
      separator, and the rest of `p` is the separator-free piece `q`. */
  lemma FirstPieceSepFree(s: string, sep: string, p: string, q: string)
    requires |sep| > 0 && |s| >= |sep| && s[..|sep|] != sep
    requires |p| <= |s| && p == s[..|p|] && p == [s[0]] + q
    requires !HasInfix(q, sep)
    ensures !HasInfix(p, sep)
  {
    forall i | 0 <= i && i + |sep| <= |p|
      ensures p[i..][..|sep|] != sep
    {
      if i == 0 {
        PrefixOfPrefix(s, p, |sep|);
      } else {
        assert p[i..] == q[i - 1..];
      }
    }
  }

  /** A prefix of `s` long enough starts as `s` does. */
  lemma PrefixOfPrefix(s: string, p: string, n: nat)
    requires n <= |p| <= |s| && p == s[..|p|]
    ensures p[0..][..n] == s[..n]
  {
  }

  /** With a one-character separator, no piece contains the separator's
      character. */
  lemma SplitPiecesFree(s: string, sep: string)
    requires |sep| == 1
    ensures forall k :: 0 <= k < |Split(s, sep)| ==> sep[0] !in Split(s, sep)[k]
  {
    SplitPiecesSepFree(s, sep);
    assert sep == [sep[0]];
    forall k | 0 <= k < |Split(s, sep)|
      ensures sep[0] !in Split(s, sep)[k]
    {
      var t := Split(s, sep)[k];
      forall i | 0 <= i < |t|
        ensures t[i] != sep[0]
      {
        assert t[i..][..1] == [t[i]];
      }
    }
  }

  /** Every character of every piece comes from the split string. */
  lemma {:induction false} SplitPieceChars(s: string, sep: string)
    requires |sep| > 0
    ensures forall k, j :: 0 <= k < |Split(s, sep)| && 0 <= j < |Split(s, sep)[k]| ==> Split(s, sep)[k][j] in s
    decreases |s|
  {
    if |s| >= |sep| {
      var r := Split(s, sep);
      if s[..|sep|] == sep {
        var t := s[|sep|..];
        SplitPieceChars(t, sep);
        forall k, j | 1 <= k < |r| && 0 <= j < |r[k]| ensures r[k][j] in s {
          assert r[k] == Split(t, sep)[k - 1];
          assert r[k][j] in t;
        }
      } else {
        var t := s[1..];
        SplitPieceChars(t, sep);
        var rest := Split(t, sep);
        forall k, j | 0 <= k < |r| && 0 <= j < |r[k]| ensures r[k][j] in s {
          if k == 0 {
            if j > 0 {
              assert r[0][j] == rest[0][j - 1];
              assert rest[0][j - 1] in t;
            }
          } else {
            assert r[k] == rest[k];
            assert r[k][j] in t;
          }
        }
      }
    }
  }

  /** Join of a list whose head is `a + sep + b` is the join of `[a, b]`
      followed by the rest. */
  lemma JoinSplitHead(a: string, b: string, tail: seq<string>, sep: string)
    ensures Join([a + sep + b] + tail, sep) == Join([a, b] + tail, sep)
  {
    var l := [a + sep + b] + tail;
    var m := [a, b] + tail;
    assert m[1..] == [b] + tail;
    if |tail| == 0 {
      assert Join(m, sep) == a + sep + Join([b], sep);
    } else {
      assert l[1..] == tail && ([b] + tail)[1..] == tail;
    }
  }

  /** Joining two non-empty lists is joining each and putting the separator
      between them. */
  lemma {:induction false} JoinAppend(xs: seq<string>, ys: seq<string>, sep: string)
    requires |xs| >= 1 && |ys| >= 1
    ensures Join(xs + ys, sep) == Join(xs, sep) + sep + Join(ys, sep)
    decreases |xs|
  {
    if |xs| == 1 {
      assert (xs + ys)[1..] == ys;
    } else {
      JoinAppend(xs[1..], ys, sep);
      assert (xs + ys)[1..] == xs[1..] + ys;
    }
  }

  /** A character that occurs neither in the separator nor in any piece
      does not occur in the join. */
  lemma {:induction false} JoinFree(xs: seq<string>, sep: string, c: char)
    requires c !in sep
    requires forall k :: 0 <= k < |xs| ==> c !in xs[k]
    ensures c !in Join(xs, sep)
    decreases |xs|
  {
    if |xs| > 1 {
      JoinFree(xs[1..], sep, c);
    }
  }

  // ASCII case mapping (see README: non-ASCII letters are left unchanged).

  function LowerChar(c: char): char
  {
    if 'A' <= c <= 'Z' then (c as int + 32) as char else c
  }

  function UpperChar(c: char): char
  {
    if 'a' <= c <= 'z' then (c as int - 32) as char else c
  }

  /** `s.toLowerCase()` restricted to ASCII letters. */
  function ToLowerCase(s: string): (r: string)
    ensures |r| == |s|
    ensures forall k :: 0 <= k < |s| ==> r[k] == LowerChar(s[k])
  {
    seq(|s|, k requires 0 <= k < |s| => LowerChar(s[k]))
  }

  /** The characters `String.prototype.trim` removes: the white space and
      line terminators of the ECMAScript grammar (the Zs category listed
      out). */
  predicate IsJsWhiteSpace(c: char)
  {
    || c == '\t' || c == '\U{000B}' || c == '\U{000C}' || c == ' ' || c == '\U{00A0}'
    || c == '\U{FEFF}' || c == '\n' || c == '\r' || c == '\U{2028}' || c == '\U{2029}'
    || c == '\U{1680}' || ('\U{2000}' <= c <= '\U{200A}') || c == '\U{202F}'
    || c == '\U{205F}' || c == '\U{3000}'
  }

  function TrimStart(s: string): (r: string)
    ensures |r| <= |s| && r == s[|s| - |r|..]
    ensures forall k :: 0 <= k < |s| - |r| ==> IsJsWhiteSpace(s[k])
    ensures |r| > 0 ==> !IsJsWhiteSpace(r[0])
  {
    if |s| > 0 && IsJsWhiteSpace(s[0]) then TrimStart(s[1..]) else s
  }

  function TrimEnd(s: string): (r: string)
    ensures |r| <= |s| && r == s[..|r|]
    ensures forall k :: |r| <= k < |s| ==> IsJsWhiteSpace(s[k])
    ensures |r| > 0 ==> !IsJsWhiteSpace(r[|r| - 1])
  {
    if |s| > 0 && IsJsWhiteSpace(s[|s| - 1]) then TrimEnd(s[..|s| - 1]) else s
  }

  /** `s.trim()`. */
  function Trim(s: string): (r: string)
    ensures |r| <= |s|
    ensures |r| > 0 ==> !IsJsWhiteSpace(r[0]) && !IsJsWhiteSpace(r[|r| - 1])
  {
    TrimEnd(TrimStart(s))
  }

  /** `s.trim()` is `s` with only a leading and a trailing run of white space
      removed. */
  lemma TrimIsInfix(s: string)
    ensures exists i, j :: 0 <= i <= j <= |s| && Trim(s) == s[i..j]
              && (forall k :: 0 <= k < i ==> IsJsWhiteSpace(s[k]))
              && (forall k :: j <= k < |s| ==> IsJsWhiteSpace(s[k]))
  {
    var t := TrimStart(s);
    var i := |s| - |t|;
    var r := TrimEnd(t);
    assert s[i..i + |r|] == r;
    forall k | i + |r| <= k < |s|
      ensures IsJsWhiteSpace(s[k])
    {
      assert s[k] == t[k - i];
    }
  }

  /** `s.trim().length > 0` holds exactly when `s` has a character that is
      not white space. */
  lemma TrimNonEmpty(s: string)
    ensures |Trim(s)| > 0 <==> exists k :: 0 <= k < |s| && !IsJsWhiteSpace(s[k])
  {
    var t := TrimStart(s);
    if |Trim(s)| > 0 {
      assert !IsJsWhiteSpace(t[0]);
      assert t[0] == s[|s| - |t|];
    }
  }

  /** The string holds the block-comment terminator `*` followed by `/`. */
  predicate HasClose(s: string)
    decreases |s|
  {
    |s| >= 2 && ((s[0] == '*' && s[1] == '/') || HasClose(s[1..]))
  }

  /** The recursive test agrees with "some star is directly followed by a
      slash". */
  lemma {:induction false} HasCloseAt(s: string)
    ensures HasClose(s) <==> exists i :: 0 <= i < |s| - 1 && s[i] == '*' && s[i + 1] == '/'
    decreases |s|
  {
    if |s| >= 2 {
      HasCloseAt(s[1..]);
      if HasClose(s[1..]) {
        var i :| 0 <= i < |s| - 2 && s[1..][i] == '*' && s[1..][i + 1] == '/';
        assert s[i + 1] == '*' && s[i + 2] == '/';
      }
      if exists i :: 0 <= i < |s| - 1 && s[i] == '*' && s[i + 1] == '/' {
        var i :| 0 <= i < |s| - 1 && s[i] == '*' && s[i + 1] == '/';
        if i > 0 {
          assert s[1..][i - 1] == '*' && s[1..][i] == '/';
        }
      }
    }
  }

  /** A terminator in a concatenation lies in one part or straddles the
      boundary. */
  lemma {:induction false} HasCloseConcat(a: string, b: string)
    ensures HasClose(a + b) <==>
      HasClose(a) || HasClose(b) || (|a| > 0 && |b| > 0 && a[|a| - 1] == '*' && b[0] == '/')
    decreases |a|
  {
    if |a| == 0 {
      assert a + b == b;
    } else {
      HasCloseConcat(a[1..], b);
      assert (a + b)[1..] == a[1..] + b;
    }
  }
}
