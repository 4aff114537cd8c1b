/**
  The `expand` text transform of the chess plugin: HTML-escape `&`, `<` and `>`
  (in that order) and then turn every `*...*` run into `<i>...</i>`, exactly as
  the global JavaScript regular expression `\*(.+?)\*` does.
*/
module Expand {
  import opened Wrappers

  // ---------------------------------------------------------------------------
  // Character classes
  // ---------------------------------------------------------------------------

  /** The characters JavaScript's `.` refuses to match (without the `s` flag). */
  predicate IsLineTerminator(c: char) {
    c == '\n' || c == '\r' || c == '\U{2028}' || c == '\U{2029}'
  }

  predicate NoLineTerminator(s: string) {
    forall j :: 0 <= j < |s| ==> !IsLineTerminator(s[j])
  }

  predicate NoAngle(s: string) {
    '<' !in s && '>' !in s
  }

  // ---------------------------------------------------------------------------
  // Step 1: escaping, as the chain of three global replacements
  // ---------------------------------------------------------------------------

  /** What a one-character replacement does to one character: `c` becomes `rep`, any other stays. */
  function Replacing(c: char, rep: string): (f: char -> string) {
    d => if d == c then rep else [d]
  }

  /** `s.replace(/c/g, rep)` for a one-character pattern `c`. */
  function ReplaceChar(s: string, c: char, rep: string): (r: string)
    ensures c !in s ==> r == s
    ensures c !in rep ==> c !in r
  {
    if s == [] then []
    else (if s[0] == c then rep else [s[0]]) + ReplaceChar(s[1..], c, rep)
  }

  /** Lines 12-15: `&` first, then `<`, then `>`. */
  function Escape(s: string): (r: string) {
    ReplaceChar(ReplaceChar(ReplaceChar(s, '&', "&amp;"), '<', "&lt;"), '>', "&gt;")
  }

  /** What one input character turns into. */
  function Entity(c: char): (r: string)
    ensures |r| >= 1
  {
    if c == '&' then "&amp;"
    else if c == '<' then "&lt;"
    else if c == '>' then "&gt;"
    else [c]
  }

  /** Replaces every character `c` of `s` by `f(c)`, left to right. */
  function Subst(f: char -> string, s: string): (r: string) {
    if s == [] then [] else f(s[0]) + Subst(f, s[1..])
  }

  /** Reference definition of escaping: every character is replaced by its entity, once. */
  function EscapeEach(s: string): (r: string) {
    Subst(Entity, s)
  }

  /** Decodes the three entities; the inverse of `EscapeEach`. */
  function Unescape(t: string): (s: string)
    decreases |t|
  {
    if t == [] then []
    else if |t| >= 5 && t[..5] == "&amp;" then "&" + Unescape(t[5..])
    else if |t| >= 4 && t[..4] == "&lt;" then "<" + Unescape(t[4..])
    else if |t| >= 4 && t[..4] == "&gt;" then ">" + Unescape(t[4..])
    else [t[0]] + Unescape(t[1..])
  }

  /** A one-character global replacement is the per-character substitution `Replacing(c, rep)`. */
  lemma {:induction false} ReplaceCharIsSubst(s: string, c: char, rep: string)
    ensures ReplaceChar(s, c, rep) == Subst(Replacing(c, rep), s)
  {
    if s != [] {
      ReplaceCharIsSubst(s[1..], c, rep);
    }
  }

  lemma {:induction false} ReplaceCharConcat(a: string, b: string, c: char, rep: string)
    ensures ReplaceChar(a + b, c, rep) == ReplaceChar(a, c, rep) + ReplaceChar(b, c, rep)
  {
    if a == [] {
      assert a + b == b;
    } else {
      assert (a + b)[1..] == a[1..] + b;
      ReplaceCharConcat(a[1..], b, c, rep);
    }
  }

  lemma {:induction false} EscapeConcat(a: string, b: string)
    ensures Escape(a + b) == Escape(a) + Escape(b)
  {
    var a1, b1 := ReplaceChar(a, '&', "&amp;"), ReplaceChar(b, '&', "&amp;");
    ReplaceCharConcat(a, b, '&', "&amp;");
    var a2, b2 := ReplaceChar(a1, '<', "&lt;"), ReplaceChar(b1, '<', "&lt;");
    ReplaceCharConcat(a1, b1, '<', "&lt;");
    ReplaceCharConcat(a2, b2, '>', "&gt;");
  }

  lemma SubstCons(f: char -> string, d: char, y: string)
    ensures Subst(f, [d] + y) == f(d) + Subst(f, y)
  {
    assert ([d] + y)[0] == d && ([d] + y)[1..] == y;
  }

  lemma {:induction false} SubstConcat(f: char -> string, a: string, b: string)
    ensures Subst(f, a + b) == Subst(f, a) + Subst(f, b)
  {
    if a == [] {
      assert a + b == b;
    } else {
      assert (a + b)[1..] == a[1..] + b;
      SubstConcat(f, a[1..], b);
    }
  }

  /**
    The chain of replacements escapes every character exactly once: because `&`
    is replaced first, no `&` of an entity made for `<` or `>` is escaped again.
  */
  lemma {:induction false} EscapeIsEntityPerChar(s: string)
    ensures Escape(s) == EscapeEach(s)
  {
    if s != [] {
      assert s == [s[0]] + s[1..];
      EscapeConcat([s[0]], s[1..]);
      EscapeSingle(s[0]);
      EscapeIsEntityPerChar(s[1..]);
    }
  }

  lemma ReplaceCharSingle(d: char, c: char, rep: string)
    ensures ReplaceChar([d], c, rep) == if d == c then rep else [d]
  {
    assert [d][1..] == [];
  }

  lemma EscapeSingle(c: char)
    ensures Escape([c]) == Entity(c)
  {
    ReplaceCharSingle(c, '&', "&amp;");
    if c == '&' {
      var a: string := ['&', 'a', 'm', 'p', ';'];
      assert '<' !in a && '>' !in a;
    } else {
      ReplaceCharSingle(c, '<', "&lt;");
      if c == '<' {
        var a: string := ['&', 'l', 't', ';'];
        assert '>' !in a;
      } else {
        ReplaceCharSingle(c, '>', "&gt;");
      }
    }
  }

  /** Escaping loses nothing: the entities decode back to the input. */
  lemma {:induction false} UnescapeEscape(s: string)
    ensures Unescape(EscapeEach(s)) == s
  {
    if s != [] {
      var c, rest := s[0], EscapeEach(s[1..]);
      var t := Entity(c) + rest;
      assert EscapeEach(s) == t;
      UnescapeEscape(s[1..]);
      if c == '&' {
        assert t[..5] == "&amp;" && t[5..] == rest;
      } else if c == '<' {
        assert t[1] == 'l';
        assert t[..4] == "&lt;" && t[4..] == rest;
      } else if c == '>' {
        assert t[1] == 'g';
        assert t[..4] == "&gt;" && t[4..] == rest;
      } else {
        assert t[0] == c && t[1..] == rest;
      }
    }
  }

  /** Escaped text holds no raw `<` or `>`. */
  lemma {:induction false} EscapeHasNoAngle(s: string)
    ensures NoAngle(EscapeEach(s))
  {
    if s != [] {
      EscapeHasNoAngle(s[1..]);
    }
  }

  /** What an entity looks like from the regular expression's point of view. */
  lemma EntityMarks(c: char)
    ensures '*' in Entity(c) <==> c == '*'
    ensures NoLineTerminator(Entity(c)) <==> !IsLineTerminator(c)
    ensures IsLineTerminator(Entity(c)[0]) <==> IsLineTerminator(c)
    ensures Entity(c)[0] == '*' <==> c == '*'
    ensures c == '*' ==> Entity(c) == "*"
    ensures '*' !in Entity(c)[1..] && NoLineTerminator(Entity(c)[1..])
  {
    if c == '&' {
      assert Entity(c) == ['&', 'a', 'm', 'p', ';'];
    } else if c == '<' {
      assert Entity(c) == ['&', 'l', 't', ';'];
    } else if c == '>' {
      assert Entity(c) == ['&', 'g', 't', ';'];
    } else {
      assert Entity(c) == [c];
      assert Entity(c)[0] == c && Entity(c)[1..] == [];
      if IsLineTerminator(c) {
        assert !NoLineTerminator(Entity(c));
      }
    }
  }

  /** Escaped text holds a `*` (is free of line terminators) exactly when the input does. */
  lemma {:induction false} EscapeKeepsMarks(s: string)
    ensures '*' in EscapeEach(s) <==> '*' in s
    ensures NoLineTerminator(EscapeEach(s)) <==> NoLineTerminator(s)
  {
    if s != [] {
      EscapeKeepsMarks(s[1..]);
      var e := Entity(s[0]);
      assert EscapeEach(s) == e + EscapeEach(s[1..]);
      assert s == [s[0]] + s[1..];
      EntityMarks(s[0]);
      NoLineTerminatorConcat(e, EscapeEach(s[1..]));
      NoLineTerminatorConcat([s[0]], s[1..]);
    }
  }

  /** The characters the regular expression cares about. */
  predicate IsMarker(c: char) {
    c == '*' || IsLineTerminator(c)
  }

  /** An entity holds a marker exactly as often as its character does. */
  lemma EntityCountsMarker(d: char, c: char)
    requires IsMarker(c)
    ensures multiset(Entity(d))[c] == multiset([d])[c]
  {
    EntityMarks(d);
    if IsMarker(d) {
      assert Entity(d) == [d];
    } else {
      assert c !in Entity(d);
    }
  }

  /** Escaping neither creates nor removes a `*` or a line terminator: each occurs as often as before. */
  lemma {:induction false} EscapeCountsMarks(s: string)
    ensures forall c :: IsMarker(c) ==> multiset(EscapeEach(s))[c] == multiset(s)[c]
  {
    if s != [] {
      EscapeCountsMarks(s[1..]);
      var e := Entity(s[0]);
      assert EscapeEach(s) == e + EscapeEach(s[1..]);
      assert s == [s[0]] + s[1..];
      forall c | IsMarker(c) ensures multiset(EscapeEach(s))[c] == multiset(s)[c] {
        EntityCountsMarker(s[0], c);
      }
    }
  }

  lemma NoLineTerminatorConcat(a: string, b: string)
    ensures NoLineTerminator(a + b) <==> NoLineTerminator(a) && NoLineTerminator(b)
  {
    if NoLineTerminator(a) && NoLineTerminator(b) {
      forall j | 0 <= j < |a + b| ensures !IsLineTerminator((a + b)[j]) {
        if j >= |a| { assert (a + b)[j] == b[j - |a|]; }
      }
    }
    if NoLineTerminator(a + b) {
      forall j | 0 <= j < |b| ensures !IsLineTerminator(b[j]) {
        assert (a + b)[|a| + j] == b[j];
      }
      forall j | 0 <= j < |a| ensures !IsLineTerminator(a[j]) {
        assert (a + b)[j] == a[j];
      }
    }
  }

  // ---------------------------------------------------------------------------
  // Step 2: the global regular expression \*(.+?)\*
  // ---------------------------------------------------------------------------

  /** A lazy match of `\*(.+?)\*` at the start of `u`, closing at index `k`. */
  predicate LazyMatch(u: string, k: int) {
    2 <= k < |u| && u[0] == '*' && u[k] == '*'
    && NoLineTerminator(u[1..k]) && '*' !in u[2..k]
  }

  /**
    Searching for the closing `*` once `.` has matched one character: the
    first `*`, provided `.` could extend over everything before it.
  */
  function CloseAt(t: string): (r: Option<nat>)
    ensures r.Some? ==> r.value < |t| && t[r.value] == '*'
  {
    if t == [] then None
    else if t[0] == '*' then Some(0)
    else if IsLineTerminator(t[0]) then None
    else
      var r' := CloseAt(t[1..]);
      if r'.Some? then Some(r'.value + 1) else None
  }

  /** Everything before the chosen `*` is matched by `.` and is not itself a `*`. */
  lemma {:induction false} CloseAtSound(t: string)
    requires CloseAt(t).Some?
    ensures '*' !in t[..CloseAt(t).value] && NoLineTerminator(t[..CloseAt(t).value])
  {
    if t[0] != '*' {
      var j := CloseAt(t[1..]).value;
      CloseAtSound(t[1..]);
      assert t[..j + 1] == [t[0]] + t[1..][..j];
    }
  }

  /** No other closing `*` is chosen: the search stops at the first admissible one. */
  lemma {:induction false} CloseAtFindsFirst(t: string, j: nat)
    requires j < |t| && t[j] == '*' && '*' !in t[..j] && NoLineTerminator(t[..j])
    ensures CloseAt(t) == Some(j)
  {
    if j > 0 {
      assert t[0] == t[..j][0];
      assert t[1..][..j - 1] == t[..j][1..];
      CloseAtFindsFirst(t[1..], j - 1);
    }
  }

  /**
    The regular expression tried at the start of `u`: `Some(k)` when it
    matches with its closing `*` at index `k`. The lazy `+?` makes that closing
    `*` the first one at least two positions after the opening one.
  */
  function MatchAt(u: string): (r: Option<nat>)
    ensures r.Some? ==> 2 <= r.value < |u| && u[0] == '*' && u[r.value] == '*'
  {
    if |u| >= 2 && u[0] == '*' && !IsLineTerminator(u[1]) then
      var c := CloseAt(u[2..]);
      if c.Some? then Some(c.value + 2) else None
    else None
  }

  /** A reported match is a lazy match. */
  lemma MatchAtSound(u: string)
    requires MatchAt(u).Some?
    ensures LazyMatch(u, MatchAt(u).value)
  {
    var c := CloseAt(u[2..]).value;
    CloseAtSound(u[2..]);
    assert u[2..][..c] == u[2..c + 2];
    assert u[1..c + 2] == [u[1]] + u[2..c + 2];
  }

  /** Conversely, every lazy match is the one `MatchAt` reports. */
  lemma MatchAtFindsEveryMatch(u: string, k: nat)
    requires LazyMatch(u, k)
    ensures MatchAt(u) == Some(k)
  {
    assert u[1..k] == [u[1]] + u[2..k];
    assert u[2..][..k - 2] == u[2..k];
    CloseAtFindsFirst(u[2..], k - 2);
  }

  /** One step of the scan: a character left as it is, or a matched run. */
  datatype Token = Plain(c: char) | Italic(body: string)

  /**
    The global replacement's scan over `s`: a failed start emits one character
    and moves on by one; a match emits its group and resumes after the closing `*`.
  */
  function Pieces(s: string): (ps: seq<Token>)
    decreases |s|
  {
    if s == [] then []
    else match MatchAt(s)
      case Some(k) => [Italic(s[1..k])] + Pieces(s[k + 1..])
      case None => [Plain(s[0])] + Pieces(s[1..])
  }

  /** The `<i>$1</i>` replacement of one piece. */
  function RenderPiece(p: Token): (html: string) {
    match p
    case Plain(c) => [c]
    case Italic(b) => "<i>" + b + "</i>"
  }

  function Render(ps: seq<Token>): (html: string) {
    if ps == [] then [] else RenderPiece(ps[0]) + Render(ps[1..])
  }

  /** One piece with its consumed `*` delimiters put back. */
  function UnparsePiece(p: Token): (s: string) {
    match p
    case Plain(c) => [c]
    case Italic(b) => "*" + b + "*"
  }

  /** The inverse of `Pieces`. */
  function Unparse(ps: seq<Token>): (s: string) {
    if ps == [] then [] else UnparsePiece(ps[0]) + Unparse(ps[1..])
  }

  /** Line 16. */
  function Italicize(t: string): (html: string) {
    Render(Pieces(t))
  }

  /** Lines 11-17. */
  function ExpandText(s: string): (html: string) {
    Italicize(Escape(s))
  }

  // ---------------------------------------------------------------------------
  // Properties of the scan
  // ---------------------------------------------------------------------------

  /** Every matched run is non-empty, stays on one line and holds no `*` after its first character. */
  lemma {:induction false} RunsAreLazy(s: string)
    ensures forall p :: p in Pieces(s) && p.Italic? ==>
              |p.body| >= 1 && NoLineTerminator(p.body) && '*' !in p.body[1..]
    decreases |s|
  {
    if s != [] {
      match MatchAt(s)
      case Some(k) =>
        MatchAtSound(s);
        assert s[1..k][1..] == s[2..k];
        RunsAreLazy(s[k + 1..]);
      case None =>
        RunsAreLazy(s[1..]);
    }
  }

  lemma SplitAtRun(s: string, k: nat)
    requires 2 <= k < |s| && s[0] == '*' && s[k] == '*'
    ensures s == "*" + s[1..k] + "*" + s[k + 1..]
  {
    assert s == [s[0]] + s[1..k] + [s[k]] + s[k + 1..];
  }

  lemma UnparseCons(p: Token, rest: seq<Token>)
    ensures Unparse([p] + rest) == UnparsePiece(p) + Unparse(rest)
  {
    assert ([p] + rest)[1..] == rest;
  }

  /** The scan consumes the whole text and loses nothing. */
  lemma {:induction false} UnparsePieces(s: string)
    ensures Unparse(Pieces(s)) == s
    decreases |s|
  {
    if s != [] {
      match MatchAt(s)
      case Some(k) =>
        var rest := Pieces(s[k + 1..]);
        assert Pieces(s) == [Italic(s[1..k])] + rest;
        UnparseCons(Italic(s[1..k]), rest);
        UnparsePieces(s[k + 1..]);
        SplitAtRun(s, k);
      case None =>
        var rest := Pieces(s[1..]);
        assert Pieces(s) == [Plain(s[0])] + rest;
        UnparseCons(Plain(s[0]), rest);
        UnparsePieces(s[1..]);
        assert s == [s[0]] + s[1..];
    }
  }

  function Plains(w: string): (ps: seq<Token>)
    ensures |ps| == |w|
  {
    if w == [] then [] else [Plain(w[0])] + Plains(w[1..])
  }

  lemma {:induction false} RenderConcat(a: seq<Token>, b: seq<Token>)
    ensures Render(a + b) == Render(a) + Render(b)
  {
    if a == [] {
      assert a + b == b;
    } else {
      assert (a + b)[0] == a[0] && (a + b)[1..] == a[1..] + b;
      RenderConcat(a[1..], b);
    }
  }

  lemma {:induction false} RenderPlains(w: string)
    ensures Render(Plains(w)) == w
  {
    if w != [] {
      RenderPlains(w[1..]);
    }
  }

  /** Text without a `*` cannot start a match anywhere. */
  lemma {:induction false} PiecesSkipStarless(w: string, z: string)
    requires '*' !in w
    ensures Pieces(w + z) == Plains(w) + Pieces(z)
  {
    if w == [] {
      assert w + z == z;
    } else {
      assert (w + z)[0] == w[0] && (w + z)[1..] == w[1..] + z;
      PiecesSkipStarless(w[1..], z);
    }
  }

  /** Escaping does not move a closing `*` relative to the escaped text before it. */
  lemma {:induction false} CloseAtSkip(w: string, z: string)
    requires '*' !in w && NoLineTerminator(w)
    ensures CloseAt(w + z) == if CloseAt(z).Some? then Some(CloseAt(z).value + |w|) else None
  {
    if w != [] {
      assert (w + z)[0] == w[0] && (w + z)[1..] == w[1..] + z;
      assert !IsLineTerminator(w[0]);
      assert '*' !in w[1..] && NoLineTerminator(w[1..]);
      CloseAtSkip(w[1..], z);
    } else {
      assert w + z == z;
    }
  }

  // ---------------------------------------------------------------------------
  // Substitutions the scan sees through
  // ---------------------------------------------------------------------------

  /**
    `e`, the replacement of `c`, is `*` itself when `c` is, holds no `*` otherwise,
    starts with a line terminator exactly when `c` is one, and after its first
    character holds neither.
  */
  predicate KeepsMarkers(c: char, e: string) {
    |e| >= 1
    && (c == '*' ==> e == "*")
    && (c != '*' ==> '*' !in e)
    && (IsLineTerminator(e[0]) <==> IsLineTerminator(c))
    && (!IsLineTerminator(c) ==> NoLineTerminator(e))
    && '*' !in e[1..] && NoLineTerminator(e[1..])
  }

  /** A substitution that neither hides nor invents a `*` or a line terminator. */
  predicate Transparent(f: char -> string) {
    forall c :: KeepsMarkers(c, f(c))
  }

  /** Escaping is such a substitution. */
  lemma EntityTransparent()
    ensures Transparent(Entity)
  {
    forall c ensures KeepsMarkers(c, Entity(c)) {
      EntityMarks(c);
    }
  }

  /** The closing search in the substituted text stops at the image of the same `*`. */
  lemma {:induction false} CloseAtSubst(f: char -> string, x: string)
    requires Transparent(f)
    ensures CloseAt(x).None? ==> CloseAt(Subst(f, x)).None?
    ensures CloseAt(x).Some? ==> CloseAt(Subst(f, x)) == Some(|Subst(f, x[..CloseAt(x).value])|)
  {
    if x != [] {
      var d := x[0];
      assert Subst(f, x) == f(d) + Subst(f, x[1..]);
      if d == '*' {
        assert x[..0] == [];
      } else if !IsLineTerminator(d) {
        CloseAtSubst(f, x[1..]);
        assert x == [d] + x[1..];
        if CloseAt(x[1..]).Some? {
          CloseAtSubstStep(f, d, x[1..], CloseAt(x[1..]).value);
        } else {
          CloseAtSubstStepNone(f, d, x[1..]);
        }
      }
    }
  }

  /** The step of `CloseAtSubst` over an ordinary first character `d`, when `y` closes at `j`. */
  lemma CloseAtSubstStep(f: char -> string, d: char, y: string, j: nat)
    requires Transparent(f) && d != '*' && !IsLineTerminator(d)
    requires CloseAt(y) == Some(j)
    requires CloseAt(Subst(f, y)) == Some(|Subst(f, y[..j])|)
    ensures CloseAt([d] + y) == Some(j + 1)
    ensures CloseAt(Subst(f, [d] + y)) == Some(|Subst(f, ([d] + y)[..j + 1])|)
  {
    assert ([d] + y)[0] == d && ([d] + y)[1..] == y;
    SubstCons(f, d, y);
    CloseAtSkip(f(d), Subst(f, y));
    assert ([d] + y)[..j + 1] == [d] + y[..j];
    SubstCons(f, d, y[..j]);
  }

  /** The same step when `y` has no closing `*`. */
  lemma CloseAtSubstStepNone(f: char -> string, d: char, y: string)
    requires Transparent(f) && d != '*' && !IsLineTerminator(d)
    requires CloseAt(y).None? && CloseAt(Subst(f, y)).None?
    ensures CloseAt([d] + y).None? && CloseAt(Subst(f, [d] + y)).None?
  {
    assert ([d] + y)[0] == d && ([d] + y)[1..] == y;
    SubstCons(f, d, y);
    CloseAtSkip(f(d), Subst(f, y));
  }

  lemma SubstStarHead(f: char -> string, s: string)
    requires Transparent(f) && |s| >= 2 && s[0] == '*'
    ensures Subst(f, s) == "*" + f(s[1]) + Subst(f, s[2..])
  {
    assert s[1..][1..] == s[2..];
    assert KeepsMarkers(s[0], f(s[0]));
  }

  /** Where the regular expression matches in the substituted text, given where it matches in the original. */
  lemma MatchAtSubst(f: char -> string, s: string)
    requires Transparent(f)
    ensures MatchAt(s).None? ==> MatchAt(Subst(f, s)).None?
    ensures MatchAt(s).Some? ==> MatchAt(Subst(f, s)) == Some(|Subst(f, s[..MatchAt(s).value])|)
  {
    var t := Subst(f, s);
    if |s| >= 2 && s[0] == '*' {
      MatchAtSubstStar(f, s);
    } else if s != [] {
      var e := f(s[0]);
      assert t == e + Subst(f, s[1..]);
      assert KeepsMarkers(s[0], e);
      if s[0] == '*' {
        assert |t| == 1;
      } else {
        assert t[0] == e[0] && e[0] in e;
      }
    }
  }

  /** The image of an opening `*` and of the character after it. */
  lemma StarImageHead(f: char -> string, s: string)
    requires Transparent(f) && |s| >= 2 && s[0] == '*'
    ensures var t := Subst(f, s);
            |t| >= 2 && t[0] == '*' && (IsLineTerminator(t[1]) <==> IsLineTerminator(s[1]))
  {
    SubstStarHead(f, s);
    assert KeepsMarkers(s[1], f(s[1]));
  }

  /** After an opening `*`, the closing search in the substituted text skips the rest of the next image. */
  lemma SubstCloseSearch(f: char -> string, s: string)
    requires Transparent(f) && |s| >= 2 && s[0] == '*'
    ensures var t, e1 := Subst(f, s), f(s[1]);
            |t| >= 2
            && CloseAt(t[2..]) == (if CloseAt(Subst(f, s[2..])).Some?
                                   then Some(CloseAt(Subst(f, s[2..])).value + |e1| - 1) else None)
  {
    SubstStarHead(f, s);
    assert KeepsMarkers(s[1], f(s[1]));
    CloseAfterHead(f(s[1]), Subst(f, s[2..]));
  }

  /** The closing search two characters into `*` + `e` + `z`, where `e` hides no marker after its first character. */
  lemma CloseAfterHead(e: string, z: string)
    requires |e| >= 1 && '*' !in e[1..] && NoLineTerminator(e[1..])
    ensures CloseAt(("*" + e + z)[2..]) == if CloseAt(z).Some? then Some(CloseAt(z).value + |e| - 1) else None
  {
    var w := e[1..];
    assert e == [e[0]] + w;
    assert "*" + e + z == ['*', e[0]] + (w + z);
    CloseAtSkip(w, z);
  }

  /** The closing search after the image of `*` and `s[1]`, when the original closes at `j` after them. */
  lemma ClosedRunImage(f: char -> string, s: string, j: nat)
    requires Transparent(f) && |s| >= 2 && s[0] == '*' && CloseAt(s[2..]) == Some(j)
    ensures |Subst(f, s)| >= 2
    ensures CloseAt(Subst(f, s)[2..]) == Some(|Subst(f, s[2..][..j])| + |f(s[1])| - 1)
  {
    CloseAtSubst(f, s[2..]);
    SubstCloseSearch(f, s);
  }

  /** What a reported match says about its first two characters and the closing search. */
  lemma MatchAtParts(u: string, k: nat)
    requires MatchAt(u) == Some(k)
    ensures |u| >= 2 && u[0] == '*' && !IsLineTerminator(u[1]) && CloseAt(u[2..]) == Some(k - 2)
  {
  }

  lemma MatchAtSubstStar(f: char -> string, s: string)
    requires Transparent(f) && |s| >= 2 && s[0] == '*'
    ensures MatchAt(s).None? ==> MatchAt(Subst(f, s)).None?
    ensures MatchAt(s).Some? ==> MatchAt(Subst(f, s)) == Some(|Subst(f, s[..MatchAt(s).value])|)
  {
    if MatchAt(s).Some? {
      MatchAtSubstRun(f, s, MatchAt(s).value);
    } else {
      StarImageHead(f, s);
      SubstCloseSearch(f, s);
      CloseAtSubst(f, s[2..]);
    }
  }

  /** `MatchAtSubstStar` when the original text has a run closing at `k`. */
  lemma MatchAtSubstRun(f: char -> string, s: string, k: nat)
    requires Transparent(f) && |s| >= 2 && s[0] == '*' && MatchAt(s) == Some(k)
    ensures MatchAt(Subst(f, s)) == Some(|Subst(f, s[..k])|)
  {
    MatchAtParts(s, k);
    StarImageHead(f, s);
    ClosedRunImage(f, s, k - 2);
    SubstPrefixLength(f, s, k);
    MatchAtOfClose(Subst(f, s), |Subst(f, s[2..][..k - 2])| + |f(s[1])| - 1);
  }

  /** A `*`, a character `.` accepts, and a closing search that succeeds make a match. */
  lemma MatchAtOfClose(u: string, c: nat)
    requires |u| >= 2 && u[0] == '*' && !IsLineTerminator(u[1]) && CloseAt(u[2..]) == Some(c)
    ensures MatchAt(u) == Some(c + 2)
  {
  }

  /** The substituted length of a prefix that starts with `*`. */
  lemma SubstPrefixLength(f: char -> string, s: string, k: nat)
    requires Transparent(f) && 2 <= k <= |s| && s[0] == '*'
    ensures |Subst(f, s[..k])| == 1 + |f(s[1])| + |Subst(f, s[2..][..k - 2])|
  {
    assert s[..k][2..] == s[2..][..k - 2];
    SubstStarHead(f, s[..k]);
  }

  /** How a substitution acts on one piece: a plain character becomes its image, a run's body is substituted. */
  function SubstPiece(f: char -> string, p: Token): (ps: seq<Token>) {
    match p
    case Plain(c) => Plains(f(c))
    case Italic(b) => [Italic(Subst(f, b))]
  }

  function SubstPieces(f: char -> string, ps: seq<Token>): (qs: seq<Token>) {
    if ps == [] then [] else SubstPiece(f, ps[0]) + SubstPieces(f, ps[1..])
  }

  lemma SubstPiecesCons(f: char -> string, p: Token, rest: seq<Token>)
    ensures SubstPieces(f, [p] + rest) == SubstPiece(f, p) + SubstPieces(f, rest)
  {
    assert ([p] + rest)[1..] == rest;
  }

  /** The substituted text around a matched run of the original. */
  lemma SubstAroundRun(f: char -> string, s: string, k: nat)
    requires Transparent(f) && 2 <= k < |s| && s[0] == '*' && s[k] == '*'
    ensures var front := Subst(f, s[..k]);
            var t := Subst(f, s);
            |front| < |t| && t[1..|front|] == Subst(f, s[1..k]) && t[|front| + 1..] == Subst(f, s[k + 1..])
  {
    var front := Subst(f, s[..k]);
    var back := Subst(f, s[k + 1..]);
    assert s == s[..k] + ([s[k]] + s[k + 1..]);
    SubstConcat(f, s[..k], [s[k]] + s[k + 1..]);
    SubstCons(f, s[k], s[k + 1..]);
    assert KeepsMarkers(s[k], f(s[k]));
    assert s[..k] == [s[0]] + s[1..k];
    SubstCons(f, s[0], s[1..k]);
    assert KeepsMarkers(s[0], f(s[0]));
    assert Subst(f, s) == front + "*" + back;
  }

  /** The substituted text of a run is scanned as one run: its substituted body, then the substituted rest. */
  lemma PiecesOfSubstRunText(f: char -> string, s: string, k: nat)
    requires Transparent(f) && MatchAt(s) == Some(k)
    ensures Pieces(Subst(f, s)) == [Italic(Subst(f, s[1..k]))] + Pieces(Subst(f, s[k + 1..]))
  {
    MatchAtSubst(f, s);
    SubstAroundRun(f, s, k);
    PiecesAtRun(Subst(f, s), |Subst(f, s[..k])|);
  }

  /** One unfolding of the scan at a matched run. */
  lemma PiecesAtRun(u: string, k: nat)
    requires MatchAt(u) == Some(k)
    ensures Pieces(u) == [Italic(u[1..k])] + Pieces(u[k + 1..])
  {
    assert u != [];
  }

  /** The induction step of `PiecesOfSubst` where a run starts. */
  lemma PiecesOfSubstRun(f: char -> string, s: string, k: nat)
    requires Transparent(f) && MatchAt(s) == Some(k)
    requires Pieces(Subst(f, s[k + 1..])) == SubstPieces(f, Pieces(s[k + 1..]))
    ensures Pieces(Subst(f, s)) == SubstPieces(f, Pieces(s))
  {
    PiecesOfSubstRunText(f, s, k);
    PiecesAtRun(s, k);
    SubstPiecesCons(f, Italic(s[1..k]), Pieces(s[k + 1..]));
  }

  /** An opening `*` that starts no run in the original starts none in the substituted text. */
  lemma LoneStarSubst(f: char -> string, s: string)
    requires Transparent(f) && s != [] && s[0] == '*' && MatchAt(s).None?
    ensures Pieces(Subst(f, s)) == [Plain('*')] + Pieces(Subst(f, s[1..]))
  {
    var t := Subst(f, s);
    MatchAtSubst(f, s);
    assert KeepsMarkers(s[0], f(s[0]));
    assert t == "*" + Subst(f, s[1..]);
    assert t[1..] == Subst(f, s[1..]);
  }

  /** The induction step of `PiecesOfSubst` where no run starts. */
  lemma PiecesOfSubstPlain(f: char -> string, s: string)
    requires Transparent(f) && s != [] && MatchAt(s).None?
    requires Pieces(Subst(f, s[1..])) == SubstPieces(f, Pieces(s[1..]))
    ensures Pieces(Subst(f, s)) == SubstPieces(f, Pieces(s))
  {
    var rest := Pieces(s[1..]);
    assert Pieces(s) == [Plain(s[0])] + rest;
    SubstPiecesCons(f, Plain(s[0]), rest);
    assert KeepsMarkers(s[0], f(s[0]));
    if s[0] == '*' {
      LoneStarSubst(f, s);
      assert Plains("*") == [Plain('*')];
    } else {
      assert Subst(f, s) == f(s[0]) + Subst(f, s[1..]);
      PiecesSkipStarless(f(s[0]), Subst(f, s[1..]));
    }
  }

  /**
    Which `*` characters pair up depends only on the original text: scanning the
    substituted text finds the substituted pieces of the original.
  */
  lemma {:induction false} PiecesOfSubst(f: char -> string, s: string)
    requires Transparent(f)
    ensures Pieces(Subst(f, s)) == SubstPieces(f, Pieces(s))
    decreases |s|
  {
    if s != [] {
      match MatchAt(s)
      case Some(k) =>
        PiecesOfSubst(f, s[k + 1..]);
        PiecesOfSubstRun(f, s, k);
      case None =>
        PiecesOfSubst(f, s[1..]);
        PiecesOfSubstPlain(f, s);
    }
  }

  /** Scanning the escaped text finds the escaped pieces of the original. */
  lemma PiecesOfEscaped(s: string)
    ensures Pieces(EscapeEach(s)) == SubstPieces(Entity, Pieces(s))
  {
    EntityTransparent();
    PiecesOfSubst(Entity, s);
  }

  // ---------------------------------------------------------------------------
  // Properties of expand
  // ---------------------------------------------------------------------------

  /** The output is the rendering of the escaped pieces of the original text. */
  lemma ExpandViaPieces(s: string)
    ensures ExpandText(s) == Render(SubstPieces(Entity, Pieces(s)))
  {
    EscapeIsEntityPerChar(s);
    PiecesOfEscaped(s);
  }

  /** A `*`-delimited run of the ORIGINAL text becomes `<i>` + its escaped body + `</i>`. */
  lemma ExpandRun(s: string, k: nat)
    requires LazyMatch(s, k)
    ensures ExpandText(s) == "<i>" + EscapeEach(s[1..k]) + "</i>" + ExpandText(s[k + 1..])
  {
    ExpandViaPieces(s);
    ExpandViaPieces(s[k + 1..]);
    MatchAtFindsEveryMatch(s, k);
    PiecesAtRun(s, k);
    var rest := SubstPieces(Entity, Pieces(s[k + 1..]));
    var body := EscapeEach(s[1..k]);
    SubstPiecesCons(Entity, Italic(s[1..k]), Pieces(s[k + 1..]));
    RenderConcat([Italic(body)], rest);
    assert Render([Italic(body)]) == "<i>" + body + "</i>";
  }

  /** Where no run starts, the first character is only escaped and the scan moves on by one. */
  lemma ExpandNoRun(s: string)
    requires s != [] && MatchAt(s).None?
    ensures ExpandText(s) == Entity(s[0]) + ExpandText(s[1..])
  {
    ExpandViaPieces(s);
    ExpandViaPieces(s[1..]);
    var rest := Pieces(s[1..]);
    assert Pieces(s) == [Plain(s[0])] + rest;
    SubstPiecesCons(Entity, Plain(s[0]), rest);
    RenderConcat(Plains(Entity(s[0])), SubstPieces(Entity, rest));
    RenderPlains(Entity(s[0]));
  }

  /** Text without `*` is only escaped. */
  lemma ExpandWithoutStar(s: string)
    requires '*' !in s
    ensures ExpandText(s) == EscapeEach(s)
  {
    EscapeIsEntityPerChar(s);
    EscapeKeepsMarks(s);
    var e := EscapeEach(s);
    PiecesSkipStarless(e, []);
    assert e + [] == e && Pieces([]) == [];
    assert Pieces(e) == Plains(e) + [] == Plains(e);
    RenderPlains(e);
  }

  /** Removes the inserted tags, scanning left to right. */
  function StripTags(t: string): (s: string)
    decreases |t|
  {
    if t == [] then []
    else if |t| >= 3 && t[0] == '<' && t[1] == 'i' && t[2] == '>' then StripTags(t[3..])
    else if |t| >= 4 && t[0] == '<' && t[1] == '/' && t[2] == 'i' && t[3] == '>' then StripTags(t[4..])
    else [t[0]] + StripTags(t[1..])
  }

  lemma {:induction false} StripTagsPlain(x: string, rest: string)
    requires '<' !in x
    ensures StripTags(x + rest) == x + StripTags(rest)
  {
    if x == [] {
      assert x + rest == rest;
    } else {
      var t := x + rest;
      assert t[0] == x[0] && t[1..] == x[1..] + rest;
      StripTagsPlain(x[1..], rest);
    }
  }

  lemma StripOpenTag(x: string)
    ensures StripTags("<i>" + x) == StripTags(x)
  {
    assert ("<i>" + x)[3..] == x;
  }

  lemma StripCloseTag(x: string)
    ensures StripTags("</i>" + x) == StripTags(x)
  {
    assert ("</i>" + x)[4..] == x;
  }

  /** The characters of one piece, without delimiters or tags. */
  function TextPiece(p: Token): (s: string) {
    match p
    case Plain(c) => [c]
    case Italic(b) => b
  }

  function Text(ps: seq<Token>): (s: string) {
    if ps == [] then [] else TextPiece(ps[0]) + Text(ps[1..])
  }

  lemma StripRenderPiece(p: Token, rest: string)
    requires '<' !in TextPiece(p)
    ensures StripTags(RenderPiece(p) + rest) == TextPiece(p) + StripTags(rest)
  {
    match p
    case Plain(c) =>
      StripTagsPlain([c], rest);
    case Italic(b) =>
      assert RenderPiece(p) + rest == "<i>" + (b + ("</i>" + rest));
      StripOpenTag(b + ("</i>" + rest));
      StripTagsPlain(b, "</i>" + rest);
      StripCloseTag(rest);
  }

  lemma {:induction false} StripRender(ps: seq<Token>)
    requires '<' !in Text(ps)
    ensures StripTags(Render(ps)) == Text(ps)
  {
    if ps != [] {
      assert '<' !in TextPiece(ps[0]) && '<' !in Text(ps[1..]);
      StripRender(ps[1..]);
      StripRenderPiece(ps[0], Render(ps[1..]));
    }
  }

  lemma {:induction false} TextOfPieces(s: string)
    ensures forall c :: c in Text(Pieces(s)) ==> c in s
    decreases |s|
  {
    if s != [] {
      match MatchAt(s)
      case Some(k) =>
        TextOfPieces(s[k + 1..]);
        assert Text(Pieces(s)) == s[1..k] + Text(Pieces(s[k + 1..]));
        assert forall c :: c in s[1..k] || c in s[k + 1..] ==> c in s;
      case None =>
        TextOfPieces(s[1..]);
        assert Text(Pieces(s)) == [s[0]] + Text(Pieces(s[1..]));
        assert s == [s[0]] + s[1..];
    }
  }

  /**
    The only raw `<` or `>` in the output belong to inserted `<i>` / `</i>` tags:
    removing the tags leaves none.
  */
  lemma TagsAreTheOnlyAngles(s: string)
    ensures NoAngle(StripTags(ExpandText(s)))
  {
    EscapeIsEntityPerChar(s);
    EscapeHasNoAngle(s);
    var t := EscapeEach(s);
    TextOfPieces(t);
    StripRender(Pieces(t));
  }
}
