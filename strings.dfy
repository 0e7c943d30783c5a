/**
 * The pieces of Rust's standard string and integer behaviour that the
 * extension depends on: `char::is_whitespace`, `str::trim`,
 * `str::split_whitespace`, `str::replace`, and `usize::to_string` together
 * with `str::parse::<usize>`.
 */
module Strings {
  import opened Wrappers

  // ---------------------------------------------------------------------
  // Whitespace, trim and split_whitespace
  // ---------------------------------------------------------------------

  /** `char::is_whitespace`: the characters with the Unicode White_Space property. */
  predicate IsWhitespace(c: char)
  {
    var n := c as int;
    (0x09 <= n <= 0x0D) || n == 0x20 || n == 0x85 || n == 0xA0 || n == 0x1680
    || (0x2000 <= n <= 0x200A) || n == 0x2028 || n == 0x2029 || n == 0x202F
    || n == 0x205F || n == 0x3000
  }

  predicate AllWhitespace(s: string)
  {
    forall i :: 0 <= i < |s| ==> IsWhitespace(s[i])
  }

  predicate NoWhitespace(s: string)
  {
    forall i :: 0 <= i < |s| ==> !IsWhitespace(s[i])
  }

  /** `str::trim_start`: drops the leading whitespace and nothing else. */
  function TrimStart(s: string): (r: string)
    ensures |r| <= |s| && r == s[|s| - |r|..]
    ensures AllWhitespace(s[..|s| - |r|])
    ensures r == [] || !IsWhitespace(r[0])
  {
    if s == [] || !IsWhitespace(s[0]) then s else TrimStart(s[1..])
  }

  /** `str::trim_end`: drops the trailing whitespace and nothing else. */
  function TrimEnd(s: string): (r: string)
    ensures |r| <= |s| && r == s[..|r|]
    ensures AllWhitespace(s[|r|..])
    ensures r == [] || !IsWhitespace(r[|r| - 1])
  {
    if s == [] || !IsWhitespace(s[|s| - 1]) then s else TrimEnd(s[..|s| - 1])
  }

  /** `r` sits at position `i` of `s` with only whitespace before and after it. */
  predicate TrimsTo(s: string, i: nat, r: string)
  {
    i + |r| <= |s| && s[i..i + |r|] == r && AllWhitespace(s[..i]) && AllWhitespace(s[i + |r|..])
  }

  /** `str::trim`: the text between the leading and the trailing whitespace. */
  function Trim(s: string): string
  {
    TrimEnd(TrimStart(s))
  }

  /** `s.trim().is_empty()`, the blank test the extension applies to input. */
  predicate IsBlank(s: string)
  {
    Trim(s) == []
  }

  /** Trim cuts off only whitespace, and what it keeps neither starts nor ends with whitespace. */
  lemma TrimKeepsMiddle(s: string)
    ensures exists i: nat :: TrimsTo(s, i, Trim(s))
    ensures var r := Trim(s); r == [] || (!IsWhitespace(r[0]) && !IsWhitespace(r[|r| - 1]))
  {
    var t := TrimStart(s);
    var r := TrimEnd(t);
    var i := |s| - |t|;
    assert r == Trim(s);
    assert s[i..i + |r|] == t[..|r|];
    assert s[i + |r|..] == t[|r|..];
    assert TrimsTo(s, i, r);
  }

  /** A string is blank exactly when every character of it is whitespace. */
  lemma BlankIffAllWhitespace(s: string)
    ensures IsBlank(s) <==> AllWhitespace(s)
  {
    var t := TrimStart(s);
    if IsBlank(s) {
      assert t == [];
      forall i | 0 <= i < |s|
        ensures IsWhitespace(s[i])
      {
        assert s[i] == s[..|s| - |t|][i];
      }
    }
  }

  /** Length of the run of non-whitespace characters at the start of `s`. */
  function WordLength(s: string): (n: nat)
    ensures n <= |s|
    ensures NoWhitespace(s[..n])
    ensures n == |s| || IsWhitespace(s[n])
  {
    if s == [] || IsWhitespace(s[0]) then 0 else 1 + WordLength(s[1..])
  }

  /** `str::split_whitespace`: the maximal runs of non-whitespace characters, in order. */
  function SplitWhitespace(s: string): (words: seq<string>)
    ensures forall k :: 0 <= k < |words| ==> words[k] != [] && NoWhitespace(words[k])
    decreases |s|
  {
    if s == [] then []
    else if IsWhitespace(s[0]) then SplitWhitespace(s[1..])
    else
      var n := WordLength(s);
      [s[..n]] + SplitWhitespace(s[n..])
  }

  /** The characters of `s` that are not whitespace, in order. */
  function NonWhitespace(s: string): string
  {
    if s == [] then []
    else (if IsWhitespace(s[0]) then [] else [s[0]]) + NonWhitespace(s[1..])
  }

  function Concat(words: seq<string>): string
  {
    if words == [] then [] else words[0] + Concat(words[1..])
  }

  /** A whitespace-free prefix passes through NonWhitespace unchanged. */
  lemma {:induction false} NonWhitespacePrefix(s: string, n: nat)
    requires n <= |s| && NoWhitespace(s[..n])
    ensures NonWhitespace(s) == s[..n] + NonWhitespace(s[n..])
  {
    if n > 0 {
      assert !IsWhitespace(s[..n][0]);
      assert s[1..][..n - 1] == s[1..n];
      forall i | 0 <= i < n - 1 ensures !IsWhitespace(s[1..n][i]) {
        assert s[1..n][i] == s[..n][i + 1];
      }
      NonWhitespacePrefix(s[1..], n - 1);
      assert s[1..][n - 1..] == s[n..];
      assert s[..n] == [s[0]] + s[1..][..n - 1];
    }
  }

  /** The words concatenated are exactly the non-whitespace characters of the input. */
  lemma {:induction false} SplitWhitespaceKeepsText(s: string)
    ensures Concat(SplitWhitespace(s)) == NonWhitespace(s)
    decreases |s|
  {
    if s == [] {
    } else if IsWhitespace(s[0]) {
      SplitWhitespaceKeepsText(s[1..]);
    } else {
      var n := WordLength(s);
      var words := SplitWhitespace(s);
      assert words == [s[..n]] + SplitWhitespace(s[n..]);
      assert words[1..] == SplitWhitespace(s[n..]);
      SplitWhitespaceKeepsText(s[n..]);
      NonWhitespacePrefix(s, n);
    }
  }

  /** There are no words exactly when the input is blank. */
  lemma {:induction false} SplitWhitespaceEmptyIffBlank(s: string)
    ensures SplitWhitespace(s) == [] <==> IsBlank(s)
    decreases |s|
  {
    BlankIffAllWhitespace(s);
    if s != [] && IsWhitespace(s[0]) {
      SplitWhitespaceEmptyIffBlank(s[1..]);
      BlankIffAllWhitespace(s[1..]);
      if AllWhitespace(s[1..]) {
        forall i | 0 <= i < |s| ensures IsWhitespace(s[i]) {
          if i > 0 { assert s[i] == s[1..][i - 1]; }
        }
      }
      if AllWhitespace(s) {
        forall i | 0 <= i < |s| - 1 ensures IsWhitespace(s[1..][i]) {
          assert s[1..][i] == s[i + 1];
        }
      }
    }
  }

  /** A non-empty run without whitespace is a single word. */
  lemma SplitWhitespaceWord(w: string)
    requires w != [] && NoWhitespace(w)
    ensures SplitWhitespace(w) == [w]
  {
    assert !IsWhitespace(w[0]);
    WordLengthWhole(w);
    assert w[|w|..] == [] && w[..|w|] == w;
    assert SplitWhitespace(w) == [w[..|w|]] + SplitWhitespace(w[|w|..]);
  }

  lemma {:induction false} WordLengthWhole(w: string)
    requires NoWhitespace(w)
    ensures WordLength(w) == |w|
  {
    if w != [] {
      assert NoWhitespace(w[1..]) by {
        forall i | 0 <= i < |w| - 1 ensures !IsWhitespace(w[1..][i]) {
          assert w[1..][i] == w[i + 1];
        }
      }
      WordLengthWhole(w[1..]);
    }
  }

  /** A word does not reach past whitespace that follows it. */
  lemma {:induction false} WordLengthBeforeWhitespace(a: string, x: string)
    requires x != [] && IsWhitespace(x[0])
    ensures WordLength(a + x) == WordLength(a)
    decreases |a|
  {
    if a != [] && !IsWhitespace(a[0]) {
      assert (a + x)[1..] == a[1..] + x;
      WordLengthBeforeWhitespace(a[1..], x);
    }
  }

  /** Every whitespace character cuts: the words around it are split apart. */
  lemma {:induction false} SplitWhitespaceAt(a: string, c: char, b: string)
    requires IsWhitespace(c)
    ensures SplitWhitespace(a + [c] + b) == SplitWhitespace(a) + SplitWhitespace(b)
    decreases |a|
  {
    var s := a + [c] + b;
    if a == [] {
      assert s == [c] + b;
      assert s[1..] == b;
    } else if IsWhitespace(a[0]) {
      assert s[1..] == a[1..] + [c] + b;
      SplitWhitespaceAt(a[1..], c, b);
    } else {
      var m := WordLength(a);
      assert s == a + ([c] + b);
      WordLengthBeforeWhitespace(a, [c] + b);
      assert s[..m] == a[..m];
      assert s[m..] == a[m..] + [c] + b;
      SplitWhitespaceAt(a[m..], c, b);
    }
  }

  // ---------------------------------------------------------------------
  // str::replace
  // ---------------------------------------------------------------------

  /** `p` starts at position `i` of `s`. */
  predicate OccursAt(s: string, p: string, i: nat)
  {
    i + |p| <= |s| && s[i..i + |p|] == p
  }

  ghost predicate Occurs(s: string, p: string)
  {
    exists i: nat :: OccursAt(s, p, i)
  }

  /**
   * `str::replace` with a non-empty pattern: the occurrences of `p` are found
   * from left to right without overlapping, and each is replaced by `r`.
   */
  function Replace(s: string, p: string, r: string): (out: string)
    requires p != []
    ensures |s| < |p| ==> out == s
    decreases |s|
  {
    if |s| < |p| then s
    else if s[..|p|] == p then r + Replace(s[|p|..], p, r)
    else [s[0]] + Replace(s[1..], p, r)
  }

  /** The text between the occurrences of `p` that Replace consumes, in order. */
  function Pieces(s: string, p: string): (ps: seq<string>)
    requires p != []
    ensures |ps| >= 1
    decreases |s|
  {
    if |s| < |p| then [s]
    else if s[..|p|] == p then [[]] + Pieces(s[|p|..], p)
    else
      var rest := Pieces(s[1..], p);
      [[s[0]] + rest[0]] + rest[1..]
  }

  /** The pieces separated by `sep`. */
  function Join(ps: seq<string>, sep: string): string
  {
    if ps == [] then []
    else if |ps| == 1 then ps[0]
    else ps[0] + sep + Join(ps[1..], sep)
  }

  lemma JoinExtendFirst(x: string, ps: seq<string>, sep: string)
    requires |ps| >= 1
    ensures Join([x + ps[0]] + ps[1..], sep) == x + Join(ps, sep)
  {
  }

  lemma JoinPrefix(ps: seq<string>, sep: string)
    requires |ps| >= 1
    ensures ps[0] <= Join(ps, sep)
  {
  }

  /** Joining the pieces with the pattern gives back the input. */
  lemma {:induction false} PiecesJoinBack(s: string, p: string)
    requires p != []
    ensures Join(Pieces(s, p), p) == s
    decreases |s|
  {
    if |s| < |p| {
    } else if s[..|p|] == p {
      var rest := Pieces(s[|p|..], p);
      assert ([[]] + rest)[1..] == rest;
      PiecesJoinBack(s[|p|..], p);
      assert s == s[..|p|] + s[|p|..];
    } else {
      var rest := Pieces(s[1..], p);
      PiecesJoinBack(s[1..], p);
      JoinExtendFirst([s[0]], rest, p);
      assert s == [s[0]] + s[1..];
    }
  }

  /** Replace puts `r` exactly where the pieces were separated by `p`. */
  lemma {:induction false} ReplaceIsJoin(s: string, p: string, r: string)
    requires p != []
    ensures Replace(s, p, r) == Join(Pieces(s, p), r)
    decreases |s|
  {
    if |s| < |p| {
    } else if s[..|p|] == p {
      var rest := Pieces(s[|p|..], p);
      assert ([[]] + rest)[1..] == rest;
      ReplaceIsJoin(s[|p|..], p, r);
    } else {
      var rest := Pieces(s[1..], p);
      ReplaceIsJoin(s[1..], p, r);
      JoinExtendFirst([s[0]], rest, r);
    }
  }

  /** No piece contains the pattern: every occurrence Replace could see was consumed. */
  lemma {:induction false} PiecesFree(s: string, p: string)
    requires p != []
    ensures forall k :: 0 <= k < |Pieces(s, p)| ==> !Occurs(Pieces(s, p)[k], p)
    decreases |s|
  {
    var ps := Pieces(s, p);
    if |s| < |p| {
    } else if s[..|p|] == p {
      var rest := Pieces(s[|p|..], p);
      PiecesFree(s[|p|..], p);
      assert ps[0] == [];
      forall k | 1 <= k < |ps| ensures !Occurs(ps[k], p) {
        assert ps[k] == rest[k - 1];
      }
    } else {
      var rest := Pieces(s[1..], p);
      PiecesFree(s[1..], p);
      forall k | 1 <= k < |ps| ensures !Occurs(ps[k], p) {
        assert ps[k] == rest[k];
      }
      var f := [s[0]] + rest[0];
      assert ps[0] == f;
      PiecesJoinBack(s[1..], p);
      JoinPrefix(rest, p);
      assert f <= s;
      forall i: nat ensures !OccursAt(f, p, i) {
        if i == 0 {
          if |p| <= |f| {
            assert f[..|p|] == s[..|p|];
          }
        } else if i + |p| <= |f| {
          assert f[i..i + |p|] == rest[0][i - 1..i - 1 + |p|];
          assert !OccursAt(rest[0], p, i - 1);
        }
      }
    }
  }

  lemma OccursInLeft(a: string, b: string, q: string)
    requires Occurs(a, q)
    ensures Occurs(a + b, q)
  {
    var i: nat :| OccursAt(a, q, i);
    assert (a + b)[i..i + |q|] == a[i..i + |q|];
    assert OccursAt(a + b, q, i);
  }

  lemma OccursInRight(a: string, b: string, q: string)
    requires Occurs(b, q)
    ensures Occurs(a + b, q)
  {
    var i: nat :| OccursAt(b, q, i);
    assert (a + b)[|a| + i..|a| + i + |q|] == b[i..i + |q|];
    assert OccursAt(a + b, q, |a| + i);
  }

  /** What occurs in a piece occurs in the joined text. */
  lemma {:induction false} PieceOccursInJoin(ps: seq<string>, sep: string, k: nat, q: string)
    requires k < |ps| && Occurs(ps[k], q)
    ensures Occurs(Join(ps, sep), q)
  {
    if |ps| > 1 {
      if k == 0 {
        OccursInLeft(ps[0], sep + Join(ps[1..], sep), q);
        assert Join(ps, sep) == ps[0] + (sep + Join(ps[1..], sep));
      } else {
        PieceOccursInJoin(ps[1..], sep, k - 1, q);
        OccursInRight(ps[0] + sep, Join(ps[1..], sep), q);
      }
    }
  }

  /**
   * An occurrence of `q` can never share a character with an occurrence of
   * `sep`: neither can start strictly inside the other, and they differ
   * somewhere when they start together.
   */
  predicate Separable(q: string, sep: string)
  {
    && q != [] && sep != []
    && (forall d :: 0 < d < |q| ==> q[d] != sep[0])
    && (forall d :: 0 < d < |sep| ==> sep[d] != q[0])
    && (exists t :: 0 <= t < |q| && t < |sep| && q[t] != sep[t])
  }

  /** Joining with a separator that `q` cannot overlap creates no new occurrence of `q`. */
  lemma {:induction false} JoinCreatesNothing(ps: seq<string>, sep: string, q: string)
    requires Separable(q, sep)
    requires forall k :: 0 <= k < |ps| ==> !Occurs(ps[k], q)
    ensures !Occurs(Join(ps, sep), q)
  {
    if |ps| > 1 {
      var a, rest := ps[0], Join(ps[1..], sep);
      JoinCreatesNothing(ps[1..], sep, q);
      var j := a + sep + rest;
      assert Join(ps, sep) == j;
      forall i: nat ensures !OccursAt(j, q, i) {
        if i + |q| <= |j| {
          if i + |q| <= |a| {
            assert j[i..i + |q|] == a[i..i + |q|];
            assert !OccursAt(a, q, i);
          } else if i < |a| {
            assert j[i..i + |q|][|a| - i] == sep[0] != q[|a| - i];
          } else if i == |a| {
            var t :| 0 <= t < |q| && t < |sep| && q[t] != sep[t];
            assert j[i..i + |q|][t] == sep[t];
          } else if i < |a| + |sep| {
            assert j[i..i + |q|][0] == sep[i - |a|] != q[0];
          } else {
            var i' := i - |a| - |sep|;
            assert j[i..i + |q|] == rest[i'..i' + |q|];
            assert !OccursAt(rest, q, i');
          }
        }
      }
    }
  }

  /** After Replace(s, p, w) no occurrence of `p` is left, when `w` cannot overlap `p`. */
  lemma ReplaceRemoves(s: string, p: string, w: string)
    requires p != [] && Separable(p, w)
    ensures !Occurs(Replace(s, p, w), p)
  {
    ReplaceIsJoin(s, p, w);
    PiecesFree(s, p);
    JoinCreatesNothing(Pieces(s, p), w, p);
  }

  /** Replace introduces no occurrence of a `q` that `w` cannot overlap. */
  lemma ReplaceKeepsAbsent(s: string, p: string, w: string, q: string)
    requires p != [] && Separable(q, w) && !Occurs(s, q)
    ensures !Occurs(Replace(s, p, w), q)
  {
    var ps := Pieces(s, p);
    PiecesJoinBack(s, p);
    forall k | 0 <= k < |ps| ensures !Occurs(ps[k], q) {
      if Occurs(ps[k], q) {
        PieceOccursInJoin(ps, p, k, q);
      }
    }
    ReplaceIsJoin(s, p, w);
    JoinCreatesNothing(ps, w, q);
  }

  /** An occurrence of a `q` that cannot overlap `p` survives Replace(s, p, w). */
  lemma ReplaceKeepsPresent(s: string, p: string, w: string, q: string)
    requires p != [] && Separable(q, p) && Occurs(s, q)
    ensures Occurs(Replace(s, p, w), q)
  {
    var ps := Pieces(s, p);
    PiecesJoinBack(s, p);
    if forall k :: 0 <= k < |ps| ==> !Occurs(ps[k], q) {
      JoinCreatesNothing(ps, p, q);
      assert false;
    }
    var k :| 0 <= k < |ps| && Occurs(ps[k], q);
    ReplaceIsJoin(s, p, w);
    PieceOccursInJoin(ps, w, k, q);
  }

  /** A text without the pattern is left as it is. */
  lemma ReplaceAbsent(s: string, p: string, r: string)
    requires p != [] && !Occurs(s, p)
    ensures Replace(s, p, r) == s
  {
    var ps := Pieces(s, p);
    PiecesJoinBack(s, p);
    ReplaceIsJoin(s, p, r);
    if |ps| > 1 {
      JoinPrefix(ps, p);
      assert Join(ps, p) == ps[0] + p + Join(ps[1..], p);
      assert OccursAt(s, p, |ps[0]|);
    }
  }

  /** The number of positions of `s` at which `q` starts. */
  function Count(s: string, q: string): nat
    requires q != []
    decreases |s|
  {
    if |s| < |q| then 0
    else (if s[..|q|] == q then 1 else 0) + Count(s[1..], q)
  }

  /** `q` is counted at least once exactly when it occurs. */
  lemma {:induction false} CountPositiveIffOccurs(s: string, q: string)
    requires q != []
    ensures Count(s, q) > 0 <==> Occurs(s, q)
    decreases |s|
  {
    if |s| >= |q| {
      CountPositiveIffOccurs(s[1..], q);
      if Occurs(s, q) {
        var i: nat :| OccursAt(s, q, i);
        if i > 0 {
          assert s[1..][i - 1..i - 1 + |q|] == s[i..i + |q|];
          assert OccursAt(s[1..], q, i - 1);
        }
      }
      if Occurs(s[1..], q) {
        var i: nat :| OccursAt(s[1..], q, i);
        assert s[i + 1..i + 1 + |q|] == s[1..][i..i + |q|];
        assert OccursAt(s, q, i + 1);
      }
      if s[..|q|] == q {
        assert OccursAt(s, q, 0);
      }
    }
  }

  /** Putting text in front never loses an occurrence. */
  lemma {:induction false} CountAppend(a: string, b: string, q: string)
    requires q != []
    ensures Count(b, q) <= Count(a + b, q)
    decreases |a|
  {
    if a == [] {
      assert a + b == b;
    } else if |a + b| >= |q| {
      assert (a + b)[1..] == a[1..] + b;
      CountAppend(a[1..], b, q);
    }
  }

  /** With no occurrence starting before `k`, the count is that of the text from `k` on. */
  lemma {:induction false} CountSkip(s: string, q: string, k: nat)
    requires q != [] && k <= |s|
    requires forall i: nat :: i < k ==> !OccursAt(s, q, i)
    ensures Count(s, q) == Count(s[k..], q)
    decreases k
  {
    if k > 0 && |s| >= |q| {
      assert !OccursAt(s, q, 0);
      forall i: nat | i < k - 1 ensures !OccursAt(s[1..], q, i) {
        assert !OccursAt(s, q, i + 1);
        if i + |q| <= |s| - 1 {
          assert s[1..][i..i + |q|] == s[i + 1..i + 1 + |q|];
        }
      }
      CountSkip(s[1..], q, k - 1);
      assert s[1..][k - 1..] == s[k..];
    }
  }

  /** Where `p` does not start before `k`, Replace keeps the first `k` characters. */
  lemma {:induction false} ReplaceKeepsPrefix(t: string, p: string, w: string, k: nat)
    requires p != [] && k <= |t|
    requires forall j: nat :: j < k ==> !OccursAt(t, p, j)
    ensures t[..k] <= Replace(t, p, w)
    decreases k
  {
    if k > 0 && |t| >= |p| {
      assert !OccursAt(t, p, 0);
      forall j: nat | j < k - 1 ensures !OccursAt(t[1..], p, j) {
        assert !OccursAt(t, p, j + 1);
        if j + |p| <= |t| - 1 {
          assert t[1..][j..j + |p|] == t[j + 1..j + 1 + |p|];
        }
      }
      ReplaceKeepsPrefix(t[1..], p, w, k - 1);
      assert t[..k] == [t[0]] + t[1..][..k - 1];
    }
  }

  /** No occurrence of a `q` that cannot overlap `p` is lost by Replace(s, p, w). */
  lemma {:induction false} ReplaceKeepsCount(s: string, p: string, w: string, q: string)
    requires Separable(q, p)
    ensures Count(s, q) <= Count(Replace(s, p, w), q)
    decreases |s|
  {
    if |s| < |p| {
    } else if s[..|p|] == p {
      forall i: nat | i < |p| ensures !OccursAt(s, q, i) {
        if i + |q| <= |s| {
          if i == 0 {
            var t :| 0 <= t < |q| && t < |p| && q[t] != p[t];
            assert s[i..i + |q|][t] == s[..|p|][t];
          } else {
            assert s[i..i + |q|][0] == s[..|p|][i];
          }
        }
      }
      CountSkip(s, q, |p|);
      ReplaceKeepsCount(s[|p|..], p, w, q);
      CountAppend(w, Replace(s[|p|..], p, w), q);
    } else {
      var rest := Replace(s[1..], p, w);
      ReplaceKeepsCount(s[1..], p, w, q);
      CountAppend([s[0]], rest, q);
      if |s| >= |q| && s[..|q|] == q {
        forall j: nat | j < |q| - 1 ensures !OccursAt(s[1..], p, j) {
          if j + |p| <= |s| - 1 {
            assert s[1..][j..j + |p|][0] == s[..|q|][j + 1];
          }
        }
        ReplaceKeepsPrefix(s[1..], p, w, |q| - 1);
        var out := [s[0]] + rest;
        assert out[..|q|] == [s[0]] + s[1..][..|q| - 1] == s[..|q|];
        assert out[1..] == rest;
      }
    }
  }

  // ---------------------------------------------------------------------
  // usize::to_string and str::parse::<usize>
  // ---------------------------------------------------------------------

  /** The largest `usize` on the 64-bit targets the launcher runs on. */
  const UsizeMax: nat := 0xFFFF_FFFF_FFFF_FFFF

  predicate IsDigit(c: char)
  {
    '0' <= c <= '9'
  }

  predicate AllDigits(s: string)
  {
    forall i :: 0 <= i < |s| ==> IsDigit(s[i])
  }

  function DigitChar(d: nat): (c: char)
    requires d < 10
    ensures IsDigit(c)
  {
    ('0' as int + d) as char
  }

  /** `usize::to_string`: decimal digits, most significant first, no leading zeros. */
  function NatToString(n: nat): (s: string)
    ensures s != [] && AllDigits(s)
    ensures |s| > 1 ==> s[0] != '0'
  {
    if n < 10 then [DigitChar(n)] else NatToString(n / 10) + [DigitChar(n % 10)]
  }

  /** The value of a string of decimal digits. */
  function DigitsValue(s: string): nat
    requires AllDigits(s)
  {
    if s == [] then 0
    else DigitsValue(s[..|s| - 1]) * 10 + (s[|s| - 1] as int - '0' as int)
  }

  /**
   * `str::parse::<usize>`: an optional `+` sign and at least one decimal digit,
   * nothing else, and a value that fits in a `usize`.
   */
  function ParseUsize(s: string): (r: Option<nat>)
    ensures r.Some? ==> r.value <= UsizeMax
  {
    var digits := if s != [] && s[0] == '+' then s[1..] else s;
    if digits == [] || !AllDigits(digits) || DigitsValue(digits) > UsizeMax then None
    else Some(DigitsValue(digits))
  }

  lemma {:induction false} DigitsValueOfToString(n: nat)
    ensures DigitsValue(NatToString(n)) == n
    decreases n
  {
    if n >= 10 {
      var s := NatToString(n);
      DigitsValueOfToString(n / 10);
      assert s[..|s| - 1] == NatToString(n / 10);
    }
  }

  /** Parsing what to_string printed gives the number back. */
  lemma ParseToString(n: nat)
    requires n <= UsizeMax
    ensures ParseUsize(NatToString(n)) == Some(n)
  {
    DigitsValueOfToString(n);
  }

  /** Different numbers print differently. */
  lemma NatToStringInjective(m: nat, n: nat)
    requires NatToString(m) == NatToString(n)
    ensures m == n
  {
    DigitsValueOfToString(m);
    DigitsValueOfToString(n);
  }
}
