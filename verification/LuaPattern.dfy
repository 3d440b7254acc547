/** The compiler from request paths to Lua patterns, a matcher for such patterns, and the proof
    that the compiled pattern matches exactly the language of the path. */
module LuaPattern {
  import opened GoStrings
  import opened PathLanguage
  import opened PathGrammar
  import opened PathValidation

  // ----- the compiler: a chain of string replacements

  const SINGLE_STAR_PLACEHOLDER := "<<SINGLESTAR>>"
  const DOUBLE_STAR_PLACEHOLDER := "<<DOUBLESTAR>>"
  const LUA_MAGIC_CHARACTERS := "%^$.+-?[]()"

  function EscapeChar(c: char): string {
    if c in LUA_MAGIC_CHARACTERS then ['%', c] else [c]
  }

  function Escape(s: string): string {
    if s == "" then "" else EscapeChar(s[0]) + Escape(s[1..])
  }

  /** The original panics on a text that its precondition excludes. */
  function EscapeLuaPatternChars(s: string): string
    requires !ContainsAny(s, "*{}")
  {
    Escape(s)
  }

  function NormalizeWildcards(path: string): string {
    if ContainsAny(path, "{}") then ReplaceAll(ReplaceAll(path, "{", ""), "}", "")
    else ReplaceAll(path, "*", "**")
  }

  function InsertPlaceholders(path: string): string {
    ReplaceAll(ReplaceAll(NormalizeWildcards(path), "**", DOUBLE_STAR_PLACEHOLDER), "*", SINGLE_STAR_PLACEHOLDER)
  }

  function ToLuaPattern(path: string): string {
    NoWildcardReachesEscaping(path);
    var escaped := EscapeLuaPatternChars(InsertPlaceholders(path));
    ReplaceAll(ReplaceAll(escaped, SINGLE_STAR_PLACEHOLDER, "[^/]+"), DOUBLE_STAR_PLACEHOLDER, ".*")
  }

  function ConvertRequestMatcherPathToLuaPattern(path: string): string {
    "^" + ToLuaPattern(path) + "$"
  }

  lemma {:induction false} ReplacedCharacters(s: string, target: string, repl: string, c: char)
    requires target != ""
    ensures c in ReplaceAll(s, target, repl) ==> c in s || c in repl
    decreases |s|
  {
    if s != "" {
      if target <= s {
        ReplacedCharacters(s[|target|..], target, repl, c);
      } else {
        ReplacedCharacters(s[1..], target, repl, c);
      }
    }
  }

  lemma {:induction false} ReplacedCharacterIsGone(s: string, c: char, repl: string)
    requires c !in repl
    ensures c !in ReplaceAll(s, [c], repl)
    decreases |s|
  {
    if s != "" {
      assert [c] <= s <==> s[0] == c;
      ReplacedCharacterIsGone(s[1..], c, repl);
    }
  }

  /** The panic of the escaping step is unreachable, whatever the path, valid or not. */
  lemma NoWildcardReachesEscaping(path: string)
    ensures !ContainsAny(InsertPlaceholders(path), "*{}")
  {
    var normalized := NormalizeWildcards(path);
    forall c | c in "{}" ensures c !in normalized {
      if ContainsAny(path, "{}") {
        ReplacedCharacterIsGone(path, '{', "");
        ReplacedCharacterIsGone(ReplaceAll(path, "{", ""), '}', "");
        ReplacedCharacters(ReplaceAll(path, "{", ""), "}", "", '{');
      } else {
        ReplacedCharacters(path, "*", "**", c);
      }
    }
    var doubled := ReplaceAll(normalized, "**", DOUBLE_STAR_PLACEHOLDER);
    forall c | c in "*{}" ensures c !in InsertPlaceholders(path) {
      if c == '*' {
        ReplacedCharacterIsGone(doubled, '*', SINGLE_STAR_PLACEHOLDER);
      } else {
        ReplacedCharacters(normalized, "**", DOUBLE_STAR_PLACEHOLDER, c);
        ReplacedCharacters(doubled, "*", SINGLE_STAR_PLACEHOLDER, c);
      }
    }
  }

  // ----- the one-pass compiler

  function Render(ts: seq<Token>, literal: char -> string, one: string, many: string): string {
    if ts == [] then ""
    else
      var text := match ts[0]
        case Literal(c) => literal(c)
        case OneSegment => one
        case AnyText => many;
      text + Render(ts[1..], literal, one, many)
  }

  function Raw(c: char): string { [c] }

  function LuaBody(ts: seq<Token>): string {
    Render(ts, EscapeChar, "[^/]+", ".*")
  }

  ghost predicate LiteralsAreClean(ts: seq<Token>) {
    forall t | t in ts :: t.Literal? ==> t.c == '/' || IsPchar(t.c)
  }

  ghost predicate OperatorsAreSeparated(ts: seq<Token>) {
    forall i | 0 <= i < |ts| - 1 :: ts[i].Literal? || ts[i + 1].Literal?
  }

  // ----- the tokens of a validated path

  lemma CleanCons(t: Token, rest: seq<Token>)
    requires LiteralsAreClean(rest) && (t.Literal? ==> t.c == '/' || IsPchar(t.c))
    ensures LiteralsAreClean([t] + rest)
  {}

  lemma SeparatedCons(t: Token, rest: seq<Token>)
    requires OperatorsAreSeparated(rest) && (t.Literal? || rest == [] || rest[0].Literal?)
    ensures OperatorsAreSeparated([t] + rest)
  {
    var ts := [t] + rest;
    forall i | 0 <= i < |ts| - 1 ensures ts[i].Literal? || ts[i + 1].Literal? {
      if i > 0 { assert ts[i] == rest[i - 1] && ts[i + 1] == rest[i]; }
    }
  }

  lemma {:induction false} TemplateTokens(s: string, afterOperator: bool)
    requires IsTemplateText(s, afterOperator)
    ensures var ts := Tokenize(s);
      && LiteralsAreClean(ts) && OperatorsAreSeparated(ts)
      && (afterOperator ==> ts == [] || ts[0].Literal?)
      && Render(ts, Raw, MATCH_ONE_TEMPLATE, MATCH_ANY_TEMPLATE) == s
    decreases |s|
  {
    if s != "" {
      var n := if HasPrefix(s, MATCH_ANY_TEMPLATE) then 4 else if HasPrefix(s, MATCH_ONE_TEMPLATE) then 3 else 1;
      TemplateTokens(s[n..], n != 1);
      assert !IsPchar('*');
      var t := if n == 4 then AnyText else if n == 3 then OneSegment else Literal(s[0]);
      assert Tokenize(s) == [t] + Tokenize(s[n..]);
      assert Tokenize(s)[1..] == Tokenize(s[n..]);
      CleanCons(t, Tokenize(s[n..]));
      SeparatedCons(t, Tokenize(s[n..]));
      assert s == s[..n] + s[n..];
    }
  }

  lemma {:induction false} RenderLiterals(text: string, one: string, many: string)
    ensures Render(Literals(text), Raw, one, many) == text
  {
    if text != "" {
      assert Literals(text)[1..] == Literals(text[1..]);
      RenderLiterals(text[1..], one, many);
      assert text == [text[0]] + text[1..];
    }
  }

  lemma {:induction false} RenderConcat(a: seq<Token>, b: seq<Token>, literal: char -> string, one: string, many: string)
    ensures Render(a + b, literal, one, many) == Render(a, literal, one, many) + Render(b, literal, one, many)
  {
    if a == [] {
      assert a + b == b;
    } else {
      assert (a + b)[1..] == a[1..] + b;
      RenderConcat(a[1..], b, literal, one, many);
    }
  }

  /** Tokens of a path without curly brackets. */
  lemma PlainTokens(text: string, star: bool)
    requires IsPlainText(text)
    ensures var path := text + (if star then "*" else ""); var ts := Tokenize(path);
      && LiteralsAreClean(ts) && OperatorsAreSeparated(ts) && OneSegment !in ts
      && Render(ts, Raw, "*", "*") == path
  {
    var tail := if star then "*" else "";
    assert !IsPchar('*') && !IsPchar('{') && !IsPchar('}');
    TokenizePlain(text, tail);
    var last := if star then [AnyText] else [];
    assert Tokenize(tail) == last by { assert "*"[1..] == ""; }
    RenderLiterals(text, "*", "*");
    RenderConcat(Literals(text), last, Raw, "*", "*");
    assert Render(last, Raw, "*", "*") == tail by { if star { assert [AnyText][1..] == []; } }
  }

  // ----- replacing inside rendered tokens

  predicate RewritesBefore(word: string, target: string, repl: string, result: string, rest: string)
    requires target != ""
  {
    ReplaceAll(word + rest, target, repl) == result + ReplaceAll(rest, target, repl)
  }

  /** Wherever it stands, the word is rewritten on its own. */
  ghost predicate Rewrites(word: string, target: string, repl: string, result: string)
    requires target != ""
  {
    forall rest: string :: RewritesBefore(word, target, repl, result, rest)
  }

  lemma RewritesTarget(target: string, repl: string)
    requires target != ""
    ensures Rewrites(target, target, repl, repl)
  {
    forall rest: string ensures RewritesBefore(target, target, repl, repl, rest) {
      ReplaceHit(target + rest, target, repl, rest);
    }
  }

  lemma RewritesNothing(word: string, target: string, repl: string)
    requires target != "" && target[0] !in word
    ensures Rewrites(word, target, repl, word)
  {
    forall rest: string ensures RewritesBefore(word, target, repl, word, rest) {
      ReplaceSkipClean(word, rest, target, repl);
    }
  }

  lemma RewritesConcat(a: string, b: string, target: string, repl: string, a': string, b': string)
    requires target != "" && Rewrites(a, target, repl, a') && Rewrites(b, target, repl, b')
    ensures Rewrites(a + b, target, repl, a' + b')
  {
    forall rest: string ensures RewritesBefore(a + b, target, repl, a' + b', rest) {
      assert RewritesBefore(b, target, repl, b', rest);
      assert RewritesBefore(a, target, repl, a', b + rest);
      assert a + b + rest == a + (b + rest);
    }
  }

  lemma {:induction false} ReplaceInRender(ts: seq<Token>, literal: char -> string, one: string, many: string,
                                           target: string, repl: string, one': string, many': string)
    requires target != ""
    requires forall t | t in ts :: t.Literal? ==> target[0] !in literal(t.c)
    requires Rewrites(one, target, repl, one') && Rewrites(many, target, repl, many')
    ensures ReplaceAll(Render(ts, literal, one, many), target, repl) == Render(ts, literal, one', many')
  {
    if ts != [] {
      var rest := Render(ts[1..], literal, one, many);
      ReplaceInRender(ts[1..], literal, one, many, target, repl, one', many');
      match ts[0]
      case Literal(c) =>
        assert ts[0] in ts;
        ReplaceSkipClean(literal(c), rest, target, repl);
      case OneSegment =>
        assert RewritesBefore(one, target, repl, one', rest);
      case AnyText =>
        assert RewritesBefore(many, target, repl, many', rest);
    }
  }

  lemma StripBrackets(ts: seq<Token>)
    requires LiteralsAreClean(ts)
    ensures ReplaceAll(ReplaceAll(Render(ts, Raw, MATCH_ONE_TEMPLATE, MATCH_ANY_TEMPLATE), "{", ""), "}", "")
         == Render(ts, Raw, "*", "**")
  {
    assert !IsPchar('{') && !IsPchar('}');
    RewritesTarget("{", "");
    RewritesNothing("*}", "{", "");
    RewritesNothing("**}", "{", "");
    RewritesConcat("{", "*}", "{", "", "", "*}");
    RewritesConcat("{", "**}", "{", "", "", "**}");
    assert "{" + "*}" == "{*}" && "{" + "**}" == "{**}" && "" + "*}" == "*}" && "" + "**}" == "**}";
    ReplaceInRender(ts, Raw, "{*}", "{**}", "{", "", "*}", "**}");
    RewritesTarget("}", "");
    RewritesNothing("*", "}", "");
    RewritesNothing("**", "}", "");
    RewritesConcat("*", "}", "}", "", "*", "");
    RewritesConcat("**", "}", "}", "", "**", "");
    assert "*" + "}" == "*}" && "**" + "}" == "**}" && "*" + "" == "*" && "**" + "" == "**";
    ReplaceInRender(ts, Raw, "*}", "**}", "}", "", "*", "**");
  }

  lemma {:induction false} RenderWithoutOneSegment(
    ts: seq<Token>, literal: char -> string, one: string, one': string, many: string)
    requires OneSegment !in ts
    ensures Render(ts, literal, one, many) == Render(ts, literal, one', many)
  {
    if ts != [] {
      assert ts[0] in ts;
      RenderWithoutOneSegment(ts[1..], literal, one, one', many);
    }
  }

  lemma DoubleLegacyStars(ts: seq<Token>)
    requires LiteralsAreClean(ts) && OneSegment !in ts
    ensures ReplaceAll(Render(ts, Raw, "*", "*"), "*", "**") == Render(ts, Raw, "*", "**")
  {
    assert !IsPchar('*');
    RewritesTarget("*", "**");
    ReplaceInRender(ts, Raw, "*", "*", "*", "**", "**", "**");
    RenderWithoutOneSegment(ts, Raw, "**", "*", "**");
  }

  lemma SeparatedTail(ts: seq<Token>)
    requires ts != [] && OperatorsAreSeparated(ts)
    ensures OperatorsAreSeparated(ts[1..])
  {
    forall i | 0 <= i < |ts[1..]| - 1 ensures ts[1..][i].Literal? || ts[1..][i + 1].Literal? {
      assert ts[i + 1].Literal? || ts[i + 1 + 1].Literal?;
    }
  }

  /** Separated single stars never merge with a neighbour into a double star. */
  lemma {:induction false} InsertDoubleStars(ts: seq<Token>)
    requires LiteralsAreClean(ts) && OperatorsAreSeparated(ts)
    ensures ReplaceAll(Render(ts, Raw, "*", "**"), "**", DOUBLE_STAR_PLACEHOLDER)
         == Render(ts, Raw, "*", DOUBLE_STAR_PLACEHOLDER)
  {
    if ts != [] {
      var rest := Render(ts[1..], Raw, "*", "**");
      assert !IsPchar('*');
      SeparatedTail(ts);
      InsertDoubleStars(ts[1..]);
      match ts[0]
      case Literal(c) =>
        assert ts[0] in ts;
        ReplaceSkipClean([c], rest, "**", DOUBLE_STAR_PLACEHOLDER);
      case OneSegment =>
        assert rest == "" || rest[0] != '*' by {
          if |ts| > 1 { assert ts[0 + 1].Literal? && ts[1] in ts && ts[1..][0] == ts[1]; }
        }
        assert !("**" <= ("*" + rest)[0..]) by {
          if rest != "" { assert ("*" + rest)[0..][1] == rest[0]; }
        }
        ReplaceSkip("*", rest, "**", DOUBLE_STAR_PLACEHOLDER);
      case AnyText =>
        ReplaceHit("**" + rest, "**", DOUBLE_STAR_PLACEHOLDER, rest);
    }
  }

  lemma InsertSingleStars(ts: seq<Token>)
    requires LiteralsAreClean(ts)
    ensures ReplaceAll(Render(ts, Raw, "*", DOUBLE_STAR_PLACEHOLDER), "*", SINGLE_STAR_PLACEHOLDER)
         == Render(ts, Raw, SINGLE_STAR_PLACEHOLDER, DOUBLE_STAR_PLACEHOLDER)
  {
    assert !IsPchar('*');
    RewritesTarget("*", SINGLE_STAR_PLACEHOLDER);
    RewritesNothing(DOUBLE_STAR_PLACEHOLDER, "*", SINGLE_STAR_PLACEHOLDER);
    ReplaceInRender(ts, Raw, "*", DOUBLE_STAR_PLACEHOLDER, "*", SINGLE_STAR_PLACEHOLDER,
                    SINGLE_STAR_PLACEHOLDER, DOUBLE_STAR_PLACEHOLDER);
  }

  lemma {:induction false} EscapeConcat(a: string, b: string)
    ensures Escape(a + b) == Escape(a) + Escape(b)
  {
    if a == "" {
      assert a + b == b;
    } else {
      assert (a + b)[1..] == a[1..] + b;
      EscapeConcat(a[1..], b);
    }
  }

  lemma {:induction false} EscapeNothing(s: string)
    requires forall c | c in s :: c !in LUA_MAGIC_CHARACTERS
    ensures Escape(s) == s
  {
    if s != "" {
      assert s[0] in s;
      EscapeNothing(s[1..]);
      assert s == [s[0]] + s[1..];
    }
  }

  lemma {:induction false} EscapeRender(ts: seq<Token>, one: string, many: string)
    requires Escape(one) == one && Escape(many) == many
    ensures Escape(Render(ts, Raw, one, many)) == Render(ts, EscapeChar, one, many)
  {
    if ts != [] {
      var rest := Render(ts[1..], Raw, one, many);
      EscapeRender(ts[1..], one, many);
      match ts[0]
      case Literal(c) =>
        EscapeConcat([c], rest);
        assert Escape([c]) == EscapeChar(c) by { assert [c][1..] == ""; }
      case OneSegment => EscapeConcat(one, rest);
      case AnyText => EscapeConcat(many, rest);
    }
  }

  /** No occurrence of one placeholder starts inside the other. */
  lemma PlaceholdersDoNotOverlap(repl: string)
    ensures Rewrites(DOUBLE_STAR_PLACEHOLDER, SINGLE_STAR_PLACEHOLDER, repl, DOUBLE_STAR_PLACEHOLDER)
  {
    var word, target := DOUBLE_STAR_PLACEHOLDER, SINGLE_STAR_PLACEHOLDER;
    forall rest: string ensures RewritesBefore(word, target, repl, word, rest) {
      forall i | 0 <= i < |word| ensures !(target <= (word + rest)[i..]) {
        var s := (word + rest)[i..];
        if i == 0 {
          assert s[2] == 'D' && target[2] == 'S';
        } else if i == 1 {
          assert s[1] == 'D' && target[1] == '<';
        } else {
          assert s[0] == word[i] && word[i] != '<';
        }
      }
      ReplaceSkip(word, rest, target, repl);
    }
  }

  lemma ExpandPlaceholders(ts: seq<Token>)
    requires LiteralsAreClean(ts)
    ensures ReplaceAll(ReplaceAll(Render(ts, EscapeChar, SINGLE_STAR_PLACEHOLDER, DOUBLE_STAR_PLACEHOLDER),
                                  SINGLE_STAR_PLACEHOLDER, "[^/]+"), DOUBLE_STAR_PLACEHOLDER, ".*")
         == LuaBody(ts)
  {
    assert !IsPchar('<');
    assert forall t | t in ts :: t.Literal? ==> '<' !in EscapeChar(t.c);
    RewritesTarget(SINGLE_STAR_PLACEHOLDER, "[^/]+");
    PlaceholdersDoNotOverlap("[^/]+");
    ReplaceInRender(ts, EscapeChar, SINGLE_STAR_PLACEHOLDER, DOUBLE_STAR_PLACEHOLDER,
                    SINGLE_STAR_PLACEHOLDER, "[^/]+", "[^/]+", DOUBLE_STAR_PLACEHOLDER);
    RewritesTarget(DOUBLE_STAR_PLACEHOLDER, ".*");
    RewritesNothing("[^/]+", DOUBLE_STAR_PLACEHOLDER, ".*");
    ReplaceInRender(ts, EscapeChar, "[^/]+", DOUBLE_STAR_PLACEHOLDER,
                    DOUBLE_STAR_PLACEHOLDER, ".*", "[^/]+", ".*");
  }

  lemma PlaceholdersOfTokens(path: string, ts: seq<Token>)
    requires LiteralsAreClean(ts) && OperatorsAreSeparated(ts)
    requires NormalizeWildcards(path) == Render(ts, Raw, "*", "**")
    ensures InsertPlaceholders(path) == Render(ts, Raw, SINGLE_STAR_PLACEHOLDER, DOUBLE_STAR_PLACEHOLDER)
  {
    InsertDoubleStars(ts);
    InsertSingleStars(ts);
  }

  lemma SinglePlaceholderIsNotEscaped()
    ensures Escape(SINGLE_STAR_PLACEHOLDER) == SINGLE_STAR_PLACEHOLDER
  {
    forall c | c in SINGLE_STAR_PLACEHOLDER ensures c !in LUA_MAGIC_CHARACTERS {}
    EscapeNothing(SINGLE_STAR_PLACEHOLDER);
  }

  lemma DoublePlaceholderIsNotEscaped()
    ensures Escape(DOUBLE_STAR_PLACEHOLDER) == DOUBLE_STAR_PLACEHOLDER
  {
    forall c | c in DOUBLE_STAR_PLACEHOLDER ensures c !in LUA_MAGIC_CHARACTERS {}
    EscapeNothing(DOUBLE_STAR_PLACEHOLDER);
  }

  lemma EscapePlaceholders(ts: seq<Token>)
    ensures Escape(Render(ts, Raw, SINGLE_STAR_PLACEHOLDER, DOUBLE_STAR_PLACEHOLDER))
         == Render(ts, EscapeChar, SINGLE_STAR_PLACEHOLDER, DOUBLE_STAR_PLACEHOLDER)
  {
    SinglePlaceholderIsNotEscaped();
    DoublePlaceholderIsNotEscaped();
    EscapeRender(ts, SINGLE_STAR_PLACEHOLDER, DOUBLE_STAR_PLACEHOLDER);
  }

  lemma ValidPathTokens(path: string)
    requires IsValidPath(path)
    ensures LiteralsAreClean(Tokenize(path)) && OperatorsAreSeparated(Tokenize(path))
    ensures NormalizeWildcards(path) == Render(Tokenize(path), Raw, "*", "**")
  {
    var form := FormOfValidPath(path);
    match form
    case Plain(text) =>
      NormalizePlain(text, false);
      assert text + "" == text;
    case LegacyStar(prefix) => NormalizePlain(prefix, true);
    case Template(_, _, _) =>
      TemplateFormText(form);
      TemplateTokens(path, false);
      BracketsInShow(form);
      assert '{' in "{}";
      StripBrackets(Tokenize(path));
  }

  lemma NormalizePlain(text: string, star: bool)
    requires IsPlainText(text)
    ensures var path := text + (if star then "*" else ""); var ts := Tokenize(path);
      && LiteralsAreClean(ts) && OperatorsAreSeparated(ts)
      && NormalizeWildcards(path) == Render(ts, Raw, "*", "**")
  {
    var path := text + (if star then "*" else "");
    PlainTokens(text, star);
    forall c | c in path ensures c !in "{}" {
      assert !IsPchar('{') && !IsPchar('}');
    }
    DoubleLegacyStars(Tokenize(path));
  }

  /** On validated paths the chain of replacements is the one-pass compiler: placeholders do not
      collide with the path, and stars do not merge. */
  lemma PipelineIsOnePass(path: string)
    requires IsValidPath(path)
    ensures ToLuaPattern(path) == LuaBody(Tokenize(path))
  {
    var ts := Tokenize(path);
    ValidPathTokens(path);
    PlaceholdersOfTokens(path, ts);
    EscapePlaceholders(ts);
    ExpandPlaceholders(ts);
  }
}
