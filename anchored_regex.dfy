/** The fragment of JavaScript regular expressions that `/^https?:\/\//i`
    uses: a pattern anchored at the start of the input (`^` without the `m`
    flag), made of literal characters, some of them under `?`, matched with
    the `i` flag. `String.prototype.match` on such a pattern succeeds or fails
    at index 0 only. */
module AnchoredRegex {
  import opened AsciiCase

  datatype Option<T> = None | Some(value: T)

  /** One pattern element: a literal character, or a literal character under
      the greedy quantifier `?`. */
  datatype Atom = Char(c: char) | Optional(c: char)

  type Pattern = seq<Atom>

  /** A pattern of literal characters only, spelling `w`. */
  function Literal(w: string): (p: Pattern)
    ensures |p| == |w|
    ensures forall i :: 0 <= i < |w| ==> p[i] == Char(w[i])
  {
    if w == [] then [] else [Char(w[0])] + Literal(w[1..])
  }

  /** Number of atoms that must consume a character. */
  function MinLength(p: Pattern): nat
  {
    if p == [] then 0 else (if p[0].Char? then 1 else 0) + MinLength(p[1..])
  }

  /** Equality of two characters under the `i` flag. */
  predicate CharMatches(c: char, a: char)
  {
    Canonicalize(c) == Canonicalize(a)
  }

  /** The language of a pattern: `w` is one of the texts `p` matches in full. */
  predicate Accepts(p: Pattern, w: string)
    decreases |p|
  {
    if p == [] then w == []
    else
      var one := |w| > 0 && CharMatches(w[0], p[0].c) && Accepts(p[1..], w[1..]);
      match p[0]
      case Char(_) => one
      case Optional(_) => one || Accepts(p[1..], w)
  }

  function Shift(r: Option<nat>): Option<nat>
  {
    if r.Some? then Some(r.value + 1) else None
  }

  /** The backtracking matcher at index 0 of `s`: the length of the text it
      matches, or None. A `?` first tries to take one character and, when the
      rest of the pattern then fails, tries again without it. */
  function MatchLength(p: Pattern, s: string): (r: Option<nat>)
    ensures r.Some? ==> MinLength(p) <= r.value <= |s| && r.value <= |p|
    decreases |p|
  {
    if p == [] then Some(0)
    else
      var one := if |s| > 0 && CharMatches(s[0], p[0].c) then Shift(MatchLength(p[1..], s[1..])) else None;
      match p[0]
      case Char(_) => one
      case Optional(_) => if one.Some? then one else MatchLength(p[1..], s)
  }

  /** `s.match(p)` is truthy. */
  predicate Matches(p: Pattern, s: string)
  {
    MatchLength(p, s).Some?
  }

  /** What the matcher reports is a prefix of `s` in the pattern's language. */
  lemma {:induction false} MatchLengthSound(p: Pattern, s: string)
    requires MatchLength(p, s).Some?
    ensures Accepts(p, s[..MatchLength(p, s).value])
    decreases |p|
  {
    if p != [] {
      var n := MatchLength(p, s).value;
      var one := if |s| > 0 && CharMatches(s[0], p[0].c) then Shift(MatchLength(p[1..], s[1..])) else None;
      if one.Some? {
        MatchLengthSound(p[1..], s[1..]);
        assert s[..n][1..] == s[1..][..n - 1];
      } else {
        MatchLengthSound(p[1..], s);
      }
    }
  }

  /** The matcher finds a match whenever some prefix of `s` is in the
      pattern's language: backtracking misses nothing. */
  lemma {:induction false} MatchLengthComplete(p: Pattern, s: string, n: nat)
    requires n <= |s| && Accepts(p, s[..n])
    ensures MatchLength(p, s).Some?
    decreases |p|
  {
    if p != [] {
      var w := s[..n];
      if |w| > 0 && CharMatches(w[0], p[0].c) && Accepts(p[1..], w[1..]) {
        assert w[1..] == s[1..][..n - 1];
        MatchLengthComplete(p[1..], s[1..], n - 1);
      } else {
        MatchLengthComplete(p[1..], s, n);
      }
    }
  }

  /** `s` starts with `w`, character by character under the `i` flag. */
  predicate StartsWithIgnoringCase(s: string, w: string)
  {
    |w| <= |s| && forall i :: 0 <= i < |w| ==> CharMatches(s[i], w[i])
  }

  lemma StartsWithIgnoringCaseStep(s: string, w: string)
    requires |s| > 0 && |w| > 0
    ensures StartsWithIgnoringCase(s, w) <==>
      CharMatches(s[0], w[0]) && StartsWithIgnoringCase(s[1..], w[1..])
  {
    if CharMatches(s[0], w[0]) && StartsWithIgnoringCase(s[1..], w[1..]) {
      forall i | 0 < i < |w| ensures CharMatches(s[i], w[i]) {
        assert s[1..][i - 1] == s[i] && w[1..][i - 1] == w[i];
      }
    }
  }

  /** A literal followed by more pattern matches exactly when the input
      starts with the literal (under the `i` flag) and the rest of the
      pattern matches what follows it. */
  lemma {:induction false} MatchesLiteralThen(w: string, rest: Pattern, s: string)
    ensures Matches(Literal(w) + rest, s) <==>
      StartsWithIgnoringCase(s, w) && Matches(rest, s[|w|..])
    decreases |w|
  {
    if w != [] {
      var p := Literal(w) + rest;
      assert p[0] == Char(w[0]);
      assert p[1..] == Literal(w[1..]) + rest;
      assert MatchLength(p, s) ==
        if |s| > 0 && CharMatches(s[0], w[0]) then Shift(MatchLength(p[1..], s[1..])) else None;
      if |s| > 0 {
        MatchesLiteralThen(w[1..], rest, s[1..]);
        StartsWithIgnoringCaseStep(s, w);
        if |w| <= |s| {
          assert s[1..][|w| - 1..] == s[|w|..];
        }
      }
    } else {
      assert Literal(w) + rest == rest && s[|w|..] == s;
    }
  }
}
