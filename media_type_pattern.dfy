/**
 * `createAudioMediaTypeRegExp(types)`: the anchored `audio/<subtype>`
 * pattern built from the configured subtypes, with `+` escaped.
 *
 * No regular-expression engine is modelled. The pattern is built as text,
 * exactly; `Alternatives` reads such a text back when its group is a
 * disjunction of literal strings (escaped characters and characters with
 * no syntactic meaning), and `PatternAccepts` says what such a pattern
 * accepts. Outside that fragment both answer `None`.
 */
module MediaTypePattern {
  import opened Optional
  import opened Strings

  /** Characters with a meaning of their own in a regular expression, outside a character class. */
  predicate IsSyntaxChar(c: char) {
    c == '\\' || c == '^' || c == '$' || c == '.' || c == '|' || c == '?' || c == '*' || c == '+'
    || c == '(' || c == ')' || c == '[' || c == ']' || c == '{' || c == '}'
  }

  /** Characters that a backslash turns into themselves. */
  predicate IsEscapable(c: char) {
    IsSyntaxChar(c) || c == '/'
  }

  /** A subtype whose only syntax characters are `+` signs, so it reads literally once every `+` is escaped. */
  predicate IsPlusToken(t: string) {
    forall i :: 0 <= i < |t| ==> t[i] == '+' || !IsSyntaxChar(t[i])
  }

  function PlusCount(t: string): nat {
    if t == [] then 0 else (if t[0] == '+' then 1 else 0) + PlusCount(t[1..])
  }

  /** `i` is the index of the first `+` in `t`. */
  predicate IsFirstPlus(t: string, i: int) {
    0 <= i < |t| && t[i] == '+' && '+' !in t[..i]
  }

  /**
   * `type.replace('+', '\\+')`. With a string as its pattern, `replace`
   * rewrites the first occurrence only: the first `+` becomes `\+` and any
   * later `+` is left as it is.
   */
  function EscapeFirstPlus(t: string): (r: string)
    ensures '+' !in t ==> r == t
    ensures '+' in t ==> |r| == |t| + 1
  {
    if t == [] then []
    else if t[0] == '+' then "\\+" + t[1..]
    else [t[0]] + EscapeFirstPlus(t[1..])
  }

  /** Escaping puts `\` before the first `+` and changes nothing else. */
  lemma {:induction false} EscapeFirstPlusSplices(t: string, i: int)
    requires IsFirstPlus(t, i)
    ensures EscapeFirstPlus(t) == t[..i] + "\\+" + t[i + 1..]
  {
    if i > 0 {
      assert t[1..][..i - 1] == t[..i][1..];
      assert IsFirstPlus(t[1..], i - 1);
      EscapeFirstPlusSplices(t[1..], i - 1);
      assert t[..i] == [t[0]] + t[1..][..i - 1];
      assert t[1..][i..] == t[i + 1..];
    }
  }

  /** The escaping is the general first-occurrence `replace` with the pattern `+`. */
  lemma EscapeFirstPlusIsReplaceFirst(t: string)
    ensures EscapeFirstPlus(t) == ReplaceFirst(t, "+", "\\+")
  {
    match IndexOf(t, "+")
    case None =>
      forall j | 0 <= j < |t| ensures t[j] != '+' {
        assert !OccursAt(t, "+", j);
        assert t[j..j + 1] == [t[j]];
      }
    case Some(i) =>
      assert OccursAt(t, "+", i) && t[i..i + 1] == [t[i]];
      forall j | 0 <= j < i ensures t[..i][j] != '+' {
        assert !OccursAt(t, "+", j);
        assert t[j..j + 1] == [t[j]];
      }
      assert IsFirstPlus(t, i);
      EscapeFirstPlusSplices(t, i);
  }

  /** The corrected escaping: every `+` becomes `\+`. */
  function EscapeEveryPlus(t: string): (r: string)
    ensures '+' !in t ==> r == t
    ensures |r| == |t| + PlusCount(t)
  {
    if t == [] then []
    else (if t[0] == '+' then "\\+" else [t[0]]) + EscapeEveryPlus(t[1..])
  }

  /** `types.map(escape).join('|')` */
  function JoinEscaped(escape: string -> string, types: seq<string>): string {
    if |types| == 0 then ""
    else if |types| == 1 then escape(types[0])
    else escape(types[0]) + "|" + JoinEscaped(escape, types[1..])
  }

  /** The text before and after the group of alternatives. */
  const Prefix := "^audio\\/("
  const Suffix := ")$"

  /** The source text of the RegExp `createAudioMediaTypeRegExp(types)` returns. */
  function PatternText(types: seq<string>): (pattern: string)
    ensures Alternatives(pattern) == LiteralAlternatives(JoinEscaped(EscapeFirstPlus, types))
  {
    PatternAlternatives(JoinEscaped(EscapeFirstPlus, types));
    Prefix + JoinEscaped(EscapeFirstPlus, types) + Suffix
  }

  /** The pattern text with every `+` of every subtype escaped. */
  function CorrectedPatternText(types: seq<string>): (pattern: string)
    ensures Alternatives(pattern) == LiteralAlternatives(JoinEscaped(EscapeEveryPlus, types))
  {
    PatternAlternatives(JoinEscaped(EscapeEveryPlus, types));
    Prefix + JoinEscaped(EscapeEveryPlus, types) + Suffix
  }

  /** Adds `prefix` to the front of the first alternative. */
  function PrependToFirst(prefix: string, r: Option<seq<string>>): Option<seq<string>> {
    match r
    case None => None
    case Some(alts) => if |alts| == 0 then None else Some([prefix + alts[0]] + alts[1..])
  }

  /**
   * Reads `s` as a disjunction of literal strings, e.g. `mp3|x\+y` as
   * ["mp3", "x+y"]; `None` when `s` uses any other syntax (an unescaped
   * `+`, a group, a class, an escape such as `\w`).
   */
  function LiteralAlternatives(s: string): (r: Option<seq<string>>)
    ensures r.Some? ==> |r.value| > 0
    decreases |s|
  {
    if s == [] then Some([""])
    else if s[0] == '\\' then
      if 2 <= |s| && IsEscapable(s[1]) then PrependToFirst([s[1]], LiteralAlternatives(s[2..])) else None
    else if s[0] == '|' then
      match LiteralAlternatives(s[1..])
      case None => None
      case Some(alts) => Some([""] + alts)
    else if IsSyntaxChar(s[0]) then None
    else PrependToFirst([s[0]], LiteralAlternatives(s[1..]))
  }

  /** The alternatives of a pattern `^audio\/(…)$` whose group is a disjunction of literals. */
  function Alternatives(pattern: string): Option<seq<string>> {
    if |Prefix| + |Suffix| <= |pattern| && pattern[..|Prefix|] == Prefix
       && pattern[|pattern| - |Suffix|..] == Suffix
    then LiteralAlternatives(pattern[|Prefix|..|pattern| - |Suffix|])
    else None
  }

  /** Whether the anchored pattern accepts `mime`, when the pattern is in the literal fragment. */
  function PatternAccepts(pattern: string, mime: string): Option<bool> {
    match Alternatives(pattern)
    case None => None
    case Some(alts) => Some(exists a :: a in alts && mime == "audio/" + a)
  }

  lemma {:induction false} NoPlusCounted(t: string)
    ensures PlusCount(t) == 0 <==> '+' !in t
  {
    if t != [] {
      NoPlusCounted(t[1..]);
      assert t == [t[0]] + t[1..];
    }
  }

  /** With at most one `+`, escaping the first one escapes them all. */
  lemma {:induction false} OnePlusEscapesAlike(t: string)
    requires PlusCount(t) <= 1
    ensures EscapeFirstPlus(t) == EscapeEveryPlus(t)
  {
    if t != [] {
      if t[0] == '+' {
        NoPlusCounted(t[1..]);
      } else {
        OnePlusEscapesAlike(t[1..]);
      }
    }
  }

  lemma PrependTwice(a: string, b: string, r: Option<seq<string>>)
    ensures PrependToFirst(a, PrependToFirst(b, r)) == PrependToFirst(a + b, r)
  {
    if r.Some? && |r.value| > 0 {
      assert a + (b + r.value[0]) == (a + b) + r.value[0];
    }
  }

  lemma ReadsLiteralChar(c: char, s: string)
    requires !IsSyntaxChar(c)
    ensures LiteralAlternatives([c] + s) == PrependToFirst([c], LiteralAlternatives(s))
  {
    assert ([c] + s)[1..] == s;
  }

  lemma ReadsEscapedChar(c: char, s: string)
    requires IsEscapable(c)
    ensures LiteralAlternatives(['\\', c] + s) == PrependToFirst([c], LiteralAlternatives(s))
  {
    assert (['\\', c] + s)[2..] == s;
  }

  lemma ReadsBar(s: string, alts: seq<string>)
    requires LiteralAlternatives(s) == Some(alts)
    ensures LiteralAlternatives("|" + s) == Some([""] + alts)
  {
    assert ("|" + s)[1..] == s;
  }

  lemma PrependNothing(r: Option<seq<string>>)
    requires r.Some? ==> |r.value| > 0
    ensures PrependToFirst("", r) == r
  {
    if r.Some? {
      var alts := r.value;
      assert "" + alts[0] == alts[0];
      assert [alts[0]] + alts[1..] == alts;
    }
  }

  lemma PlusTokenTail(t: string)
    requires t != [] && IsPlusToken(t)
    ensures IsPlusToken(t[1..]) && (t[0] == '+' || !IsSyntaxChar(t[0]))
  {
    forall i | 0 <= i < |t[1..]| ensures t[1..][i] == '+' || !IsSyntaxChar(t[1..][i]) {
      assert t[1..][i] == t[i + 1];
    }
  }

  /** An escaped token reads back as the token itself, glued to the front of what follows. */
  lemma {:induction false} EscapedTokenReadsBack(t: string, rest: string)
    requires IsPlusToken(t)
    ensures LiteralAlternatives(EscapeEveryPlus(t) + rest) == PrependToFirst(t, LiteralAlternatives(rest))
  {
    if t == [] {
      assert EscapeEveryPlus(t) + rest == rest;
      PrependNothing(LiteralAlternatives(rest));
    } else {
      var tail := EscapeEveryPlus(t[1..]) + rest;
      PlusTokenTail(t);
      assert LiteralAlternatives(EscapeEveryPlus(t) + rest) == PrependToFirst([t[0]], LiteralAlternatives(tail)) by {
        var head := if t[0] == '+' then "\\+" else [t[0]];
        assert EscapeEveryPlus(t) + rest == head + tail;
        ReadsEscapedHead(t[0], tail);
      }
      EscapedTokenReadsBack(t[1..], rest);
      PrependTwice([t[0]], t[1..], LiteralAlternatives(rest));
      assert [t[0]] + t[1..] == t;
    }
  }

  /** One escaped character of a token, read back. */
  lemma ReadsEscapedHead(c: char, tail: string)
    requires c == '+' || !IsSyntaxChar(c)
    ensures LiteralAlternatives((if c == '+' then "\\+" else [c]) + tail) == PrependToFirst([c], LiteralAlternatives(tail))
  {
    if c == '+' {
      ReadsEscapedChar('+', tail);
    } else {
      ReadsLiteralChar(c, tail);
    }
  }

  lemma PrependToSingle(head: string)
    ensures PrependToFirst(head, Some([""])) == Some([head])
  {
    var alts: seq<string> := [""];
    assert alts[0] == "";
    assert head + alts[0] == head;
    assert alts[1..] == [];
    assert [head + alts[0]] + alts[1..] == [head];
  }

  lemma PrependToCons(head: string, tail: seq<string>)
    ensures PrependToFirst(head, Some([""] + tail)) == Some([head] + tail)
  {
    var alts: seq<string> := [""] + tail;
    assert alts[0] == "";
    assert head + alts[0] == head;
    assert alts[1..] == tail;
  }

  lemma JoinedSingleReadsBack(head: string)
    requires IsPlusToken(head)
    ensures LiteralAlternatives(EscapeEveryPlus(head)) == Some([head])
  {
    EscapedTokenReadsBack(head, "");
    assert EscapeEveryPlus(head) + "" == EscapeEveryPlus(head);
    PrependToSingle(head);
  }

  lemma JoinedConsReadsBack(head: string, escapedRest: string, tail: seq<string>)
    requires IsPlusToken(head)
    requires LiteralAlternatives(escapedRest) == Some(tail)
    ensures LiteralAlternatives(EscapeEveryPlus(head) + ("|" + escapedRest)) == Some([head] + tail)
  {
    var barred := "|" + escapedRest;
    ReadsBar(escapedRest, tail);
    assert LiteralAlternatives(barred) == Some([""] + tail);
    EscapedTokenReadsBack(head, barred);
    PrependToCons(head, tail);
  }

  /** Joining escaped tokens with `|` and reading the result back gives the tokens, in order. */
  lemma {:induction false} JoinedTokensReadBack(types: seq<string>)
    requires |types| > 0
    requires forall i :: 0 <= i < |types| ==> IsPlusToken(types[i])
    ensures LiteralAlternatives(JoinEscaped(EscapeEveryPlus, types)) == Some(types)
  {
    if |types| == 1 {
      assert JoinEscaped(EscapeEveryPlus, types) == EscapeEveryPlus(types[0]);
      JoinedSingleReadsBack(types[0]);
      assert [types[0]] == types;
    } else {
      var rest := JoinEscaped(EscapeEveryPlus, types[1..]);
      assert JoinEscaped(EscapeEveryPlus, types) == EscapeEveryPlus(types[0]) + ("|" + rest);
      JoinedTokensReadBack(types[1..]);
      JoinedConsReadsBack(types[0], rest, types[1..]);
      assert [types[0]] + types[1..] == types;
    }
  }

  /** For tokens with at most one `+`, both escapings join to the same text. */
  lemma {:induction false} JoinsAgree(types: seq<string>)
    requires forall i :: 0 <= i < |types| ==> PlusCount(types[i]) <= 1
    ensures JoinEscaped(EscapeFirstPlus, types) == JoinEscaped(EscapeEveryPlus, types)
  {
    if |types| > 0 {
      OnePlusEscapesAlike(types[0]);
      if |types| > 1 {
        JoinsAgree(types[1..]);
      }
    }
  }

  /** The group of a built pattern is read back from between the prefix and the suffix. */
  lemma PatternAlternatives(joined: string)
    ensures Alternatives(Prefix + joined + Suffix) == LiteralAlternatives(joined)
  {
    var p := Prefix + joined + Suffix;
    assert p[..|Prefix|] == Prefix;
    assert p[|p| - |Suffix|..] == Suffix;
    assert p[|Prefix|..|p| - |Suffix|] == joined;
  }

  /** What a pattern whose alternatives are `alts` accepts, given the special case of no types. */
  lemma AcceptsFromAlternatives(pattern: string, types: seq<string>, mime: string)
    requires Alternatives(pattern) == Some(if types == [] then [""] else types)
    ensures PatternAccepts(pattern, mime)
      == Some(if types == [] then mime == "audio/" else exists t :: t in types && mime == "audio/" + t)
  {
    if types == [] {
      assert "audio/" + "" == "audio/";
    }
  }

  /**
   * The built pattern for subtypes with at most one `+` each: one
   * alternative per subtype, in order, unescaped back to the subtype. A
   * media type is accepted exactly when it is `audio/` followed by one of
   * the subtypes, the whole string and nothing more. An empty list gives
   * `^audio\/()$`, which accepts the bare `audio/` only.
   */
  lemma PatternAcceptsExactlyTheTypes(types: seq<string>, mime: string)
    requires forall i :: 0 <= i < |types| ==> IsPlusToken(types[i]) && PlusCount(types[i]) <= 1
    ensures Alternatives(PatternText(types)) == Some(if types == [] then [""] else types)
    ensures PatternAccepts(PatternText(types), mime)
      == Some(if types == [] then mime == "audio/" else exists t :: t in types && mime == "audio/" + t)
  {
    JoinsAgree(types);
    PatternAlternatives(JoinEscaped(EscapeFirstPlus, types));
    if types != [] {
      JoinedTokensReadBack(types);
    }
    AcceptsFromAlternatives(PatternText(types), types, mime);
  }

  lemma EmptyTypesPattern()
    ensures PatternText([]) == "^audio\\/()$"
    ensures Alternatives(PatternText([])) == Some([""])
    ensures PatternAccepts(PatternText([]), "audio/") == Some(true)
  {
    PatternAcceptsExactlyTheTypes([], "audio/");
  }

  lemma SecondPlusEscapedOnce()
    ensures JoinEscaped(EscapeFirstPlus, ["x+y+z"]) == "x\\+y+z"
  {
    var t := "x+y+z";
    assert IsFirstPlus(t, 1) by { assert t[..1] == "x"; }
    EscapeFirstPlusSplices(t, 1);
    assert t[..1] + "\\+" + t[2..] == "x\\+y+z";
  }

  lemma SecondPlusNotLiteral()
    ensures LiteralAlternatives("x\\+y+z") == None
  {
    assert LiteralAlternatives("+z") == None;
    ReadsLiteralChar('y', "+z");
    assert ['\\', '+'] + "y+z" == "\\+y+z";
    ReadsEscapedChar('+', "y+z");
    assert ['x'] + "\\+y+z" == "x\\+y+z";
    ReadsLiteralChar('x', "\\+y+z");
  }

  /**
   * A subtype with two `+` signs keeps its second one unescaped: the text
   * is `^audio\/(x\+y+z)$`, in which `y+` means "one or more y". It is not
   * a disjunction of literals, so it does not accept exactly `audio/x+y+z`.
   */
  lemma SecondPlusLeftUnescaped()
    ensures PatternText(["x+y+z"]) == Prefix + "x\\+y+z" + Suffix
    ensures Alternatives(PatternText(["x+y+z"])) == None
  {
    SecondPlusEscapedOnce();
    SecondPlusNotLiteral();
    PatternAlternatives("x\\+y+z");
  }

  /** The corrected pattern reads back every subtype made of `+` and non-syntax characters, whatever its `+` count. */
  lemma CorrectedPatternAcceptsExactlyTheTypes(types: seq<string>, mime: string)
    requires forall i :: 0 <= i < |types| ==> IsPlusToken(types[i])
    ensures Alternatives(CorrectedPatternText(types)) == Some(if types == [] then [""] else types)
    ensures PatternAccepts(CorrectedPatternText(types), mime)
      == Some(if types == [] then mime == "audio/" else exists t :: t in types && mime == "audio/" + t)
  {
    PatternAlternatives(JoinEscaped(EscapeEveryPlus, types));
    if types != [] {
      JoinedTokensReadBack(types);
    }
    AcceptsFromAlternatives(CorrectedPatternText(types), types, mime);
  }
}
