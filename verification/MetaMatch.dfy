// Pattern matching (bootloader/gnu-efi/lib/str.c:325-409).
module MetaMatches {
  import opened WideTexts

  const STAR: nat := '*' as int
  const QUERY: nat := '?' as int
  const OPEN: nat := '[' as int
  const CLOSE: nat := ']' as int
  const DASH: nat := '-' as int

  // ----- the pattern language

  datatype Token = Literal(c: Char16) | AnyChar | AnyText | Class(body: Text)

  /** The characters before the first closing bracket. */
  function Body(p: Text): (b: Text)
    ensures |b| <= |p| && b == p[..|b|] && CLOSE !in b
    ensures |b| < |p| ==> p[|b|] == CLOSE
  {
    if p == [] || p[0] == CLOSE then [] else [p[0]] + Body(p[1..])
  }

  /** Every class that is opened is closed; otherwise the source reads past the end of the pattern. */
  predicate Closed(p: Text)
    decreases |p|
  {
    p == [] ||
    (if p[0] == OPEN then |Body(p[1..])| < |p[1..]| && Closed(p[1..][|Body(p[1..])| + 1..])
     else Closed(p[1..]))
  }

  function Tokens(p: Text): seq<Token>
    requires Closed(p)
    decreases |p|
  {
    if p == [] then []
    else if p[0] == STAR then [AnyText] + Tokens(p[1..])
    else if p[0] == QUERY then [AnyChar] + Tokens(p[1..])
    else if p[0] == OPEN then [Class(Body(p[1..]))] + Tokens(p[1..][|Body(p[1..])| + 1..])
    else [Literal(p[0])] + Tokens(p[1..])
  }

  /** The character before position i of a class; 0 at the start, so a leading range has no lower end. */
  function Before(body: Text, i: nat): nat
    requires i < |body|
  {
    if i == 0 then NUL else body[i - 1]
  }

  /** Position i of a class stands for c: a single character, or a range with the upper end included. */
  predicate Stands(body: Text, i: nat, c: Char16)
    requires i < |body|
  {
    if body[i] == DASH then i + 1 < |body| && (Before(body, i) <= c <= body[i + 1] || c == body[i + 1])
    else c == body[i]
  }

  ghost predicate InClass(body: Text, c: Char16) {
    exists i :: 0 <= i < |body| && Stands(body, i, c)
  }

  /** The texts that one token describes. */
  ghost predicate Describes(t: Token, part: Text) {
    match t
    case Literal(c) => part == [c]
    case AnyChar => |part| == 1
    case AnyText => true
    case Class(body) => |part| == 1 && InClass(body, part[0])
  }

  function Concat(parts: seq<Text>): Text {
    if parts == [] then [] else parts[0] + Concat(parts[1..])
  }

  /** The parts make up the text, one described by each token. */
  ghost predicate Splits(tokens: seq<Token>, s: Text, parts: seq<Text>) {
    |parts| == |tokens| && Concat(parts) == s && forall i :: 0 <= i < |tokens| ==> Describes(tokens[i], parts[i])
  }

  /** The language of a pattern: texts that split into one part for each token. */
  ghost predicate InLanguage(tokens: seq<Token>, s: Text) {
    exists parts :: Splits(tokens, s, parts)
  }

  // ----- the language, token by token

  lemma LanguageEmpty(s: Text)
    ensures InLanguage([], s) <==> s == []
  {
    if s == [] {
      assert Splits([], s, []);
    }
  }

  lemma SplitsTail(t: Token, rest: seq<Token>, s: Text, parts: seq<Text>) returns (k: nat)
    requires Splits([t] + rest, s, parts)
    ensures k <= |s| && Describes(t, s[..k]) && InLanguage(rest, s[k..])
  {
    hide Describes;
    var tokens := [t] + rest;
    k := |parts[0]|;
    assert s[..k] == parts[0] && s[k..] == Concat(parts[1..]);
    assert Describes(tokens[0], parts[0]);
    forall i | 0 <= i < |rest|
      ensures Describes(rest[i], parts[1..][i])
    {
      assert Describes(tokens[i + 1], parts[i + 1]);
    }
    var tail: seq<Text> := parts[1..];
    assert Splits(rest, s[k..], tail);
  }

  lemma SplitsCons(t: Token, rest: seq<Token>, s: Text, k: nat, parts: seq<Text>)
    requires k <= |s| && Describes(t, s[..k]) && Splits(rest, s[k..], parts)
    ensures Splits([t] + rest, s, [s[..k]] + parts)
  {
    hide Describes;
    var (tokens, all) := ([t] + rest, [s[..k]] + parts);
    assert all[1..] == parts && s == s[..k] + s[k..];
    forall i | 0 <= i < |tokens|
      ensures Describes(tokens[i], all[i])
    {
      if i > 0 {
        assert tokens[i] == rest[i - 1] && all[i] == parts[i - 1];
      }
    }
  }

  lemma LanguageStep(t: Token, rest: seq<Token>, s: Text)
    ensures InLanguage([t] + rest, s) <==>
      exists k :: 0 <= k <= |s| && Describes(t, s[..k]) && InLanguage(rest, s[k..])
  {
    hide Describes, Splits;
    if InLanguage([t] + rest, s) {
      var parts :| Splits([t] + rest, s, parts);
      var k := SplitsTail(t, rest, s, parts);
    }
    if exists k :: 0 <= k <= |s| && Describes(t, s[..k]) && InLanguage(rest, s[k..]) {
      var k :| 0 <= k <= |s| && Describes(t, s[..k]) && InLanguage(rest, s[k..]);
      var parts :| Splits(rest, s[k..], parts);
      SplitsCons(t, rest, s, k, parts);
    }
  }

  /** A token for one character matches the first character and leaves the rest. */
  lemma LanguageOne(t: Token, rest: seq<Token>, s: Text)
    requires !t.AnyText?
    ensures InLanguage([t] + rest, s) <==> s != [] && Describes(t, s[..1]) && InLanguage(rest, s[1..])
  {
    LanguageStep(t, rest, s);
  }

  lemma LanguageStar(rest: seq<Token>, s: Text)
    ensures InLanguage([AnyText] + rest, s) <==> exists k :: 0 <= k <= |s| && InLanguage(rest, s[k..])
  {
    LanguageStep(AnyText, rest, s);
  }

  // ----- the code

  /** The loop over the characters of a class, and the skip to its end. */
  method MatchClass(c: Char16, start: Text) returns (matched: bool, p: Text)
    requires |Body(start)| < |start|
    ensures matched == InClass(Body(start), c)
    ensures matched ==> p == start[|Body(start)| + 1..]
  {
    ghost var body := Body(start);
    var l: nat := NUL;
    var q: nat := NUL;
    p := start;
    ghost var i := 0;
    matched := false;
    while true
      invariant 0 <= i <= |body| && p == start[i..]
      invariant if i == 0 then l == NUL else if body[i - 1] == DASH then i < |body| && l == body[i] else l == body[i - 1]
      invariant forall j :: 0 <= j < i ==> !Stands(body, j, c)
      decreases |body| - i
    {
      q := Head(p);
      p := p[1..];
      assert q == start[i];
      if q == NUL {
        break;
      }
      if q == CLOSE {
        assert i == |body|;
        return false, p;
      }
      assert i < |body|;
      if q == DASH {
        q := Head(p);
        assert q == start[i + 1];
        if q == NUL || q == CLOSE {
          return false, p;
        }
        if c >= l && c <= q {
          matched := true;
          break;
        }
      }
      l := q;
      if c == q {
        matched := true;
        break;
      }
      i := i + 1;
    }
    assert Stands(body, i, c);
    ghost var n := i + 1;
    while q != NUL && q != CLOSE
      invariant i < n <= |body| + 1 && p == start[n..]
      invariant q != NUL && (q == CLOSE <==> n == |body| + 1)
      decreases |p|
    {
      q := Head(p);
      assert q == start[n];
      p := p[1..];
      n := n + 1;
    }
  }

  /**
   * MetaMatch.  TRUE exactly when the string is in the language of the pattern.  The
   * recursion at `*` keeps the string or shortens it, with a shorter pattern.
   */
  method MetaMatch(str: Text, pattern: Text) returns (r: bool)
    requires Closed(pattern)
    ensures r == InLanguage(Tokens(pattern), str)
    decreases |pattern|, |str|
  {
    hide InLanguage, Describes;
    var s, pat := str, pattern;
    while true
      invariant |pat| <= |pattern| && Closed(pat)
      invariant InLanguage(Tokens(pat), s) == InLanguage(Tokens(pattern), str)
      decreases |pat|
    {
      var p := Head(pat);
      if p == NUL {
        LanguageEmpty(s);
        return Head(s) == NUL;
      }
      ghost var before := pat;
      pat := pat[1..];
      if p == STAR {
        LanguageStar(Tokens(pat), s);
        ghost var k := 0;
        ghost var s0 := s;
        while Head(s) != NUL
          invariant 0 <= k <= |s0| && s == s0[k..]
          invariant forall j :: 0 <= j < k ==> !InLanguage(Tokens(pat), s0[j..])
          decreases |s|
        {
          var matched := MetaMatch(s, pat);
          if matched {
            return true;
          }
          s := s[1..];
          k := k + 1;
        }
        r := MetaMatch(s, pat);
        return;
      } else if p == QUERY {
        QueryStep(Tokens(pat), s);
        if Head(s) == NUL {
          return false;
        }
        s := s[1..];
      } else if p == OPEN {
        ClassStep(Body(pat), Tokens(pat[|Body(pat)| + 1..]), s);
        var c := Head(s);
        if c == NUL {
          return false;
        }
        var matched, rest := MatchClass(c, pat);
        if !matched {
          return false;
        }
        pat := rest;
        s := s[1..];
      } else {
        LiteralStep(p, Tokens(pat), s);
        var c := Head(s);
        if c != p {
          return false;
        }
        s := s[1..];
      }
    }
  }

  lemma QueryStep(rest: seq<Token>, s: Text)
    ensures InLanguage([AnyChar] + rest, s) <==> s != [] && InLanguage(rest, s[1..])
  {
    hide InLanguage;
    LanguageOne(AnyChar, rest, s);
  }

  lemma ClassStep(body: Text, rest: seq<Token>, s: Text)
    ensures InLanguage([Class(body)] + rest, s) <==> s != [] && InClass(body, s[0]) && InLanguage(rest, s[1..])
  {
    hide InLanguage;
    LanguageOne(Class(body), rest, s);
  }

  lemma LiteralStep(c: Char16, rest: seq<Token>, s: Text)
    ensures InLanguage([Literal(c)] + rest, s) <==> s != [] && s[0] == c && InLanguage(rest, s[1..])
  {
    hide InLanguage;
    LanguageOne(Literal(c), rest, s);
    assert s != [] ==> s[..1] == [s[0]];
  }

  // ----- the characters that are special, and what classes mean

  /** `*` and `?` are special, and `[` up to the next `]`; every other character stands for itself. */
  lemma TokenMeaning(c: Char16, p: Text)
    requires Closed(p) && c != '[' as int
    ensures Closed([c] + p)
    ensures Tokens([c] + p)
      == [if c == '*' as int then AnyText else if c == '?' as int then AnyChar else Literal(c)] + Tokens(p)
  {
    assert ([c] + p)[1..] == p;
  }

  lemma ClassMeaning(body: Text, p: Text)
    requires Closed(p) && ']' as int !in body
    ensures Closed(['[' as int] + body + [']' as int] + p)
    ensures Tokens(['[' as int] + body + [']' as int] + p) == [Class(body)] + Tokens(p)
  {
    var t: Text := ['[' as int] + body + [']' as int] + p;
    var rest: Text := body + [']' as int] + p;
    assert t[1..] == rest;
    BodyOf(body, p);
    assert rest[|body| + 1..] == p;
  }

  lemma {:induction false} BodyOf(body: Text, p: Text)
    requires ']' as int !in body
    ensures Body(body + [']' as int] + p) == body
    decreases |body|
  {
    var t: Text := body + [']' as int] + p;
    if body != [] {
      assert t[1..] == body[1..] + [']' as int] + p;
      BodyOf(body[1..], p);
      assert body == [body[0]] + body[1..];
    }
  }

  /** A class of single characters. */
  lemma SinglesClass(body: Text, c: Char16)
    requires '-' as int !in body
    ensures InClass(body, c) <==> c in body
  {
    if c in body {
      var i :| 0 <= i < |body| && body[i] == c;
      assert Stands(body, i, c);
    }
  }

  /** A range: both ends and what lies between them. */
  lemma RangeClass(lo: Char16, hi: Char16, c: Char16)
    requires lo != '-' as int && hi != '-' as int && lo <= hi
    ensures InClass([lo, '-' as int, hi], c) <==> lo <= c <= hi
  {
    var body: Text := [lo, '-' as int, hi];
    assert Stands(body, 1, c) <==> lo <= c <= hi;
    assert Stands(body, 0, c) <==> c == lo;
    assert Stands(body, 2, c) <==> c == hi;
  }

  /** "a*" matches what begins with an a, and "?[0-9]" any character before a digit. */
  lemma TwoPatterns(s: Text)
    ensures Closed([0x61, 0x2A]) && (InLanguage(Tokens([0x61, 0x2A]), s) <==> s != [] && s[0] == 0x61)
    ensures var p := [0x3F, 0x5B, 0x30, 0x2D, 0x39, 0x5D];
      (Closed(p) && (InLanguage(Tokens(p), s) <==> |s| == 2 && 0x30 <= s[1] <= 0x39))
  {
    hide Tokens, Closed, InLanguage;
    NoTokens();
    var none: Text, star: Text, both: Text := [], [0x2A], [0x61, 0x2A];
    assert star == [0x2A] + none && both == [0x61] + star;
    TokenMeaning(0x2A, none);
    TokenMeaning(0x61, star);
    assert [AnyText] + [] == [AnyText];
    LiteralStep(0x61, [AnyText], s);
    if s != [] {
      AllTexts(s[1..]);
    }
    var digits: Text := [0x30, 0x2D, 0x39];
    ClassMeaning(digits, []);
    assert [0x5B] + digits + [0x5D] + [] == [0x5B, 0x30, 0x2D, 0x39, 0x5D];
    TokenMeaning(0x3F, [0x5B, 0x30, 0x2D, 0x39, 0x5D]);
    assert [0x3F] + [0x5B, 0x30, 0x2D, 0x39, 0x5D] == [0x3F, 0x5B, 0x30, 0x2D, 0x39, 0x5D];
    assert [Class(digits)] + [] == [Class(digits)];
    QueryStep([Class(digits)], s);
    if s != [] {
      ClassStep(digits, [], s[1..]);
      if |s| > 1 {
        LanguageEmpty(s[1..][1..]);
        RangeClass(0x30, 0x39, s[1]);
      }
    }
  }

  lemma NoTokens()
    ensures Closed([]) && Tokens([]) == []
  {
  }

  lemma AllTexts(s: Text)
    ensures InLanguage([AnyText], s)
  {
    assert [AnyText] + [] == [AnyText];
    LanguageStar([], s);
    assert s[|s|..] == [];
    LanguageEmpty(s[|s|..]);
  }
}
