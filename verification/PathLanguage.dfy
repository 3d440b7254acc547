/** What a request path pattern means: the set of request paths it matches. */
module PathLanguage {
  import opened GoStrings

  const MATCH_ONE_TEMPLATE := "{*}"
  const MATCH_ANY_TEMPLATE := "{**}"

  /** One unit of a path pattern: a character to be matched literally, `{*}` (one non-empty
      segment), or `{**}` and the legacy trailing `*` (any text). */
  datatype Token = Literal(c: char) | OneSegment | AnyText

  /** Reads a pattern left to right in one pass. */
  function Tokenize(path: string): seq<Token> {
    if path == "" then []
    else if HasPrefix(path, MATCH_ANY_TEMPLATE) then [AnyText] + Tokenize(path[|MATCH_ANY_TEMPLATE|..])
    else if HasPrefix(path, MATCH_ONE_TEMPLATE) then [OneSegment] + Tokenize(path[|MATCH_ONE_TEMPLATE|..])
    else if path[0] == '*' then [AnyText] + Tokenize(path[1..])
    else [Literal(path[0])] + Tokenize(path[1..])
  }

  /** The texts a single token stands for. */
  predicate Stands(t: Token, piece: string) {
    match t
    case Literal(c) => piece == [c]
    case OneSegment => piece != "" && '/' !in piece
    case AnyText => true
  }

  ghost predicate Matches(ts: seq<Token>, s: string) {
    if ts == [] then s == ""
    else exists k | 0 <= k <= |s| :: Stands(ts[0], s[..k]) && Matches(ts[1..], s[k..])
  }

  /** The language of a request path pattern. */
  ghost predicate InLanguage(path: string, s: string) {
    Matches(Tokenize(path), s)
  }

  function Concat(pieces: seq<string>): string {
    if pieces == [] then "" else pieces[0] + Concat(pieces[1..])
  }

  ghost predicate Decomposes(ts: seq<Token>, pieces: seq<string>, s: string) {
    && |pieces| == |ts|
    && Concat(pieces) == s
    && forall i | 0 <= i < |ts| :: Stands(ts[i], pieces[i])
  }

  /** Matching is exactly cutting the text into one piece per token. */
  lemma {:induction false} MatchesIffDecomposes(ts: seq<Token>, s: string)
    ensures Matches(ts, s) <==> exists pieces :: Decomposes(ts, pieces, s)
  {
    if ts == [] {
      if s == "" {
        assert Decomposes(ts, [], s);
      }
    } else {
      if Matches(ts, s) {
        var k :| 0 <= k <= |s| && Stands(ts[0], s[..k]) && Matches(ts[1..], s[k..]);
        MatchesIffDecomposes(ts[1..], s[k..]);
        var rest :| Decomposes(ts[1..], rest, s[k..]);
        var pieces := [s[..k]] + rest;
        assert pieces[1..] == rest;
        assert s == s[..k] + s[k..];
        forall i | 0 <= i < |ts| ensures Stands(ts[i], pieces[i]) {
          if i > 0 {
            assert ts[i] == ts[1..][i - 1] && pieces[i] == rest[i - 1];
          }
        }
        assert Decomposes(ts, pieces, s);
      }
      if pieces :| Decomposes(ts, pieces, s) {
        var k := |pieces[0]|;
        assert s[..k] == pieces[0] && s[k..] == Concat(pieces[1..]);
        assert Decomposes(ts[1..], pieces[1..], s[k..]);
        MatchesIffDecomposes(ts[1..], s[k..]);
      }
    }
  }

  lemma MatchesLiteral(c: char, rest: seq<Token>, s: string)
    ensures Matches([Literal(c)] + rest, s) <==> s != "" && s[0] == c && Matches(rest, s[1..])
  {
    var ts := [Literal(c)] + rest;
    assert ts[1..] == rest;
    if s != "" && s[0] == c && Matches(rest, s[1..]) {
      assert Stands(ts[0], s[..1]) && Matches(ts[1..], s[1..]);
    }
  }

  lemma MatchesLiteralAt(c: char, rest: seq<Token>, s: string, k: nat)
    requires k <= |s|
    ensures Matches([Literal(c)] + rest, s[k..]) <==> k < |s| && s[k] == c && Matches(rest, s[k + 1..])
  {
    MatchesLiteral(c, rest, s[k..]);
    if k < |s| {
      assert s[k..][1..] == s[k + 1..];
    }
  }

  function Literals(text: string): seq<Token> {
    seq(|text|, i requires 0 <= i < |text| => Literal(text[i]))
  }

  lemma LiteralsCons(text: string, rest: seq<Token>)
    requires text != ""
    ensures Literals(text) + rest == [Literal(text[0])] + (Literals(text[1..]) + rest)
  {}

  /** Leading literal characters are matched one by one. */
  lemma {:induction false} MatchesLiterals(text: string, rest: seq<Token>, s: string)
    ensures Matches(Literals(text) + rest, s) <==> text <= s && Matches(rest, s[|text|..])
    decreases |text|
  {
    if text == "" {
      assert Literals(text) + rest == rest;
      assert s[0..] == s;
    } else {
      LiteralsCons(text, rest);
      MatchesLiteral(text[0], Literals(text[1..]) + rest, s);
      if s != "" {
        MatchesLiterals(text[1..], rest, s[1..]);
        if text <= s {
          assert s[1..][|text| - 1..] == s[|text|..];
        }
        assert (s[0] == text[0] && text[1..] <= s[1..]) <==> text <= s by {
          if s[0] == text[0] && text[1..] <= s[1..] {
            assert text == [text[0]] + text[1..];
            forall i | 0 <= i < |text| ensures text[i] == s[i] {
              if i > 0 { assert text[i] == text[1..][i - 1] == s[1..][i - 1]; }
            }
          }
        }
      }
    }
  }

  /** A character that has no meaning of its own in a pattern. */
  predicate IsPlainChar(c: char) {
    c !in "*{}"
  }

  lemma TokenizePlainChar(c: char, rest: string)
    requires IsPlainChar(c)
    ensures Tokenize([c] + rest) == [Literal(c)] + Tokenize(rest)
  {
    var s := [c] + rest;
    assert s[0] == c && s[1..] == rest;
  }

  lemma {:induction false} TokenizePlain(text: string, rest: string)
    requires forall c | c in text :: IsPlainChar(c)
    ensures Tokenize(text + rest) == Literals(text) + Tokenize(rest)
    decreases |text|
  {
    if text == "" {
      assert text + rest == rest;
    } else {
      assert text[0] in text;
      TokenizePlain(text[1..], rest);
      TokenizePlainChar(text[0], text[1..] + rest);
      assert text + rest == [text[0]] + (text[1..] + rest);
      LiteralsCons(text, Tokenize(rest));
    }
  }

  lemma TokenizeLiteralPath(text: string)
    requires forall c | c in text :: IsPlainChar(c)
    ensures Tokenize(text) == Literals(text)
  {
    TokenizePlain(text, "");
    assert text + "" == text;
  }

  /** A literal text followed by "any text" denotes the texts with that prefix. */
  lemma PrefixLanguage(text: string, s: string)
    ensures Matches(Literals(text) + [AnyText], s) <==> text <= s
  {
    MatchesLiterals(text, [AnyText], s);
    if text <= s {
      var rest := s[|text|..];
      assert rest[|rest|..] == "" && [AnyText][1..] == [];
      assert Stands([AnyText][0], rest[..|rest|]) && Matches([AnyText][1..], rest[|rest|..]);
    }
  }

  lemma LiteralLanguage(text: string, s: string)
    ensures Matches(Literals(text), s) <==> s == text
  {
    MatchesLiterals(text, [], s);
    assert Literals(text) + [] == Literals(text);
  }

  lemma MatchesOneSegment(rest: seq<Token>, s: string)
    ensures Matches([OneSegment] + rest, s) <==>
      exists k | 1 <= k <= |s| :: '/' !in s[..k] && Matches(rest, s[k..])
  {
    var ts := [OneSegment] + rest;
    assert ts[1..] == rest;
    if k :| 1 <= k <= |s| && '/' !in s[..k] && Matches(rest, s[k..]) {
      assert Stands(ts[0], s[..k]) && Matches(ts[1..], s[k..]);
    }
  }

  lemma MatchesAnyText(rest: seq<Token>, s: string)
    ensures Matches([AnyText] + rest, s) <==> exists k | 0 <= k <= |s| :: Matches(rest, s[k..])
  {
    var ts := [AnyText] + rest;
    assert ts[1..] == rest;
    if k :| 0 <= k <= |s| && Matches(rest, s[k..]) {
      assert Stands(ts[0], s[..k]) && Matches(ts[1..], s[k..]);
    }
  }
}
