/** The fragment of ECMAScript regular expressions that the e-mail validator
    uses: literal characters, `[...]` / `[^...]` classes made of single
    characters and the `\s` escape, and the `+` quantifier, anchored at both
    ends by `^` and `$` (no `m` flag), so that `test` succeeds exactly when
    the whole input matches. */
module JsRegex {

  /** `\s` (section 22.2.2.9 of ECMA-262): the WhiteSpace code points
      (TAB, VT, FF, SP, NBSP, ZWNBSP and the Unicode category Zs) and the
      LineTerminator code points (LF, CR, LS, PS). */
  predicate IsWhitespace(c: char) {
    c == '\t' || c == '\n' || c == '\U{000B}' || c == '\U{000C}' || c == '\r'
    || c == ' ' || c == '\U{00A0}' || c == '\U{1680}'
    || ('\U{2000}' <= c <= '\U{200A}')
    || c == '\U{2028}' || c == '\U{2029}' || c == '\U{202F}' || c == '\U{205F}'
    || c == '\U{3000}' || c == '\U{FEFF}'
  }

  /** One member of a character class. */
  datatype ClassItem = Single(c: char) | SpaceEscape

  /** `[items]`, or `[^items]` when negated. */
  datatype CharClass = CharClass(negated: bool, items: seq<ClassItem>)

  /** A literal character, or a character class under `+`. */
  datatype Atom = Literal(c: char) | OneOrMore(cls: CharClass)

  /** The atoms between `^` and `$`, in order. */
  type Pattern = seq<Atom>

  predicate ItemMatches(item: ClassItem, c: char) {
    match item
    case Single(d) => c == d
    case SpaceEscape => IsWhitespace(c)
  }

  predicate ClassMatches(cls: CharClass, c: char) {
    (exists i :: 0 <= i < |cls.items| && ItemMatches(cls.items[i], c)) != cls.negated
  }

  predicate AllInClass(cls: CharClass, s: string) {
    forall i :: 0 <= i < |s| ==> ClassMatches(cls, s[i])
  }

  /** Whether the whole of `s` matches `^p$`: a backtracking matcher that
      tries every length for a `+` atom. */
  predicate Matches(p: Pattern, s: string)
    decreases |p|
  {
    if p == [] then s == []
    else match p[0]
      case Literal(c) => 0 < |s| && s[0] == c && Matches(p[1..], s[1..])
      case OneOrMore(cls) =>
        exists k :: 1 <= k <= |s| && AllInClass(cls, s[..k]) && Matches(p[1..], s[k..])
  }

  /** Every atom of the fragment consumes at least one character. */
  lemma {:induction false} MatchLength(p: Pattern, s: string)
    requires Matches(p, s)
    ensures |s| >= |p|
    decreases |p|
  {
    if p != [] {
      match p[0]
      case Literal(c) =>
        MatchLength(p[1..], s[1..]);
      case OneOrMore(cls) =>
        var k :| 1 <= k <= |s| && AllInClass(cls, s[..k]) && Matches(p[1..], s[k..]);
        MatchLength(p[1..], s[k..]);
    }
  }
}
