/** Lua source text written by the operator: string literals and the rule tables, and what a Lua
    lexer (section 2.1 of the Lua 5.1 Reference Manual) reads back from it. */
module LuaText {
  import opened GoStrings
  import opened PathLanguage
  import opened PathGrammar
  import opened PathValidation
  import opened LuaPattern
  import opened Wrappers

  const NUL := '\0'
  const VERTICAL_TAB := '\U{B}'
  const FORM_FEED := '\U{C}'

  // ----- string literals

  function EscapeLuaChar(c: char): string {
    if c == '\\' then "\\\\"
    else if c == '\"' then "\\\""
    else if c == '\n' then "\\n"
    else if c == '\r' then "\\r"
    else if c == '\t' then "\\t"
    else if c == VERTICAL_TAB then "\\v"
    else if c == FORM_FEED then "\\f"
    else if c == NUL then ""
    else [c]
  }

  function EscapeLuaString(s: string): string {
    if s == "" then "" else EscapeLuaChar(s[0]) + EscapeLuaString(s[1..])
  }

  function WithoutNul(s: string): string {
    if s == "" then "" else (if s[0] == NUL then "" else [s[0]]) + WithoutNul(s[1..])
  }

  predicate IsDigit(c: char) {
    '0' <= c <= '9'
  }

  function DigitCount(t: string, limit: nat): (n: nat)
    ensures n <= |t| && n <= limit
  {
    if limit > 0 && t != "" && IsDigit(t[0]) then 1 + DigitCount(t[1..], limit - 1) else 0
  }

  function Decimal(digits: string): int
    requires forall d | d in digits :: IsDigit(d)
  {
    if digits == "" then 0 else 10 * Decimal(digits[..|digits| - 1]) + (digits[|digits| - 1] as int - '0' as int)
  }

  lemma {:induction false} DigitsAreDigits(t: string, limit: nat)
    ensures forall d | d in t[..DigitCount(t, limit)] :: IsDigit(d)
  {
    if limit > 0 && t != "" && IsDigit(t[0]) {
      DigitsAreDigits(t[1..], limit - 1);
      assert t[..DigitCount(t, limit)] == [t[0]] + t[1..][..DigitCount(t[1..], limit - 1)];
    }
  }

  /** The character an escape sequence without digits stands for. */
  function Unescape(c: char): char {
    if c == 'a' then '\U{7}'
    else if c == 'b' then '\U{8}'
    else if c == 'f' then FORM_FEED
    else if c == 'n' then '\n'
    else if c == 'r' then '\r'
    else if c == 't' then '\t'
    else if c == 'v' then VERTICAL_TAB
    else c
  }

  /** Reads the rest of a double-quoted string after its opening quote: its value and what follows. A
      raw NUL byte, like a raw line break, is never valid in a string literal. */
  function LexString(t: string): Option<(string, string)>
    decreases |t|
  {
    if t == "" || t[0] == '\n' || t[0] == '\r' || t[0] == NUL then None
    else if t[0] == '\"' then Some(("", t[1..]))
    else if t[0] != '\\' then Prepend(t[0], LexString(t[1..]))
    else if |t| == 1 then None
    else if !IsDigit(t[1]) then Prepend(Unescape(t[1]), LexString(t[2..]))
    else
      var n := DigitCount(t[1..], 3);
      DigitsAreDigits(t[1..], 3);
      var code := Decimal(t[1..][..n]);
      if 0 <= code < 256 then Prepend(code as char, LexString(t[1 + n..])) else None
  }

  function Prepend(c: char, lexed: Option<(string, string)>): Option<(string, string)> {
    if lexed.None? then None else Some(([c] + lexed.value.0, lexed.value.1))
  }

  lemma LexEscapedChar(c: char, rest: string)
    ensures LexString(EscapeLuaChar(c) + rest) == if c == NUL then LexString(rest) else Prepend(c, LexString(rest))
  {
    var t := EscapeLuaChar(c) + rest;
    if c == NUL {
      assert t == rest;
    } else if |EscapeLuaChar(c)| == 1 {
      assert t[1..] == rest;
    } else {
      assert t[0] == '\\' && t[2..] == rest;
    }
  }

  /** A quoted, escaped string is read back as the string without its NUL bytes, and nothing after
      the closing quote is touched. */
  lemma {:induction false} EscapedStringReadsBack(s: string, rest: string)
    ensures LexString(EscapeLuaString(s) + "\"" + rest) == Some((WithoutNul(s), rest))
  {
    if s == "" {
      var t := EscapeLuaString(s) + "\"" + rest;
      assert t[1..] == rest;
    } else {
      EscapedStringReadsBack(s[1..], rest);
      var tail := EscapeLuaString(s[1..]) + "\"" + rest;
      assert EscapeLuaString(s) + "\"" + rest == EscapeLuaChar(s[0]) + tail;
      LexEscapedChar(s[0], tail);
      assert "" + WithoutNul(s[1..]) == WithoutNul(s[1..]);
    }
  }

  /** An escaped string stays on its line: no line break, tab, feed or NUL byte is left in it. */
  lemma {:induction false} EscapedStringHasNoControls(s: string)
    ensures forall c | c in EscapeLuaString(s) ::
      c != '\n' && c != '\r' && c != '\t' && c != '\U{B}' && c != '\U{C}' && c != '\0'
  {
    if s != "" {
      EscapedStringHasNoControls(s[1..]);
    }
  }

  lemma {:induction false} WithoutNulUnchanged(s: string)
    requires NUL !in s
    ensures WithoutNul(s) == s
  {
    if s != "" {
      WithoutNulUnchanged(s[1..]);
      assert s == [s[0]] + s[1..];
    }
  }

  const UNSAFE_CHARACTERS := "\"\\\n\r\0"

  /** Text that stands for itself between double quotes. */
  predicate IsLuaSafe(s: string) {
    forall c | c in s :: c !in UNSAFE_CHARACTERS
  }

  lemma {:induction false} LexedLength(t: string)
    requires LexString(t).Some?
    ensures var (value, rest) := LexString(t).value;
      && |value| + 1 + |rest| <= |t|
      && (|value| + 1 + |rest| == |t| ==> value <= t && IsLuaSafe(value))
    decreases |t|
  {
    if t[0] == '\"' {
    } else if t[0] != '\\' {
      LexedLength(t[1..]);
      var (value, rest) := LexString(t).value;
      if |value| + 1 + |rest| == |t| {
        assert t == [t[0]] + t[1..];
      }
    } else if !IsDigit(t[1]) {
      LexedLength(t[2..]);
    } else {
      LexedLength(t[1 + DigitCount(t[1..], 3)..]);
    }
  }

  /** A text printed between quotes without escaping is read back exactly if and only if it has no
      quote, backslash, line break or NUL byte. */
  lemma {:induction false} RawStringReadsBackIffSafe(s: string, rest: string)
    ensures LexString(s + "\"" + rest) == Some((s, rest)) <==> IsLuaSafe(s)
  {
    var t := s + "\"" + rest;
    if LexString(t) == Some((s, rest)) {
      LexedLength(t);
    }
    if IsLuaSafe(s) {
      SafeStringReadsBack(s, rest);
    }
  }

  /** A lexed body is no shorter than its value, has no more quotes, and is its value if it is as long. */
  predicate IsBodyOf(body: string, value: string) {
    && |value| <= |body|
    && Count(body, '\"') <= Count(value, '\"')
    && (|value| == |body| ==> value == body && IsLuaSafe(value))
  }

  lemma BodyCons(c: char, body: string, value: string)
    requires IsBodyOf(body, value) && c !in UNSAFE_CHARACTERS
    ensures IsBodyOf([c] + body, [c] + value)
  {
    assert ([c] + body)[1..] == body && ([c] + value)[1..] == value;
  }

  lemma BodyEscape(escape: string, c: char, body: string, value: string)
    requires IsBodyOf(body, value) && |escape| >= 2
    requires Count(escape, '\"') <= (if c == '\"' then 1 else 0)
    ensures IsBodyOf(escape + body, [c] + value)
  {
    CountConcat(escape, body, '\"');
    assert ([c] + value)[1..] == value;
  }

  /** What was lexed is a body, its closing quote and the rest. */
  lemma {:induction false} LexedBody(t: string) returns (body: string)
    requires LexString(t).Some?
    ensures t == body + "\"" + LexString(t).value.1 && IsBodyOf(body, LexString(t).value.0)
    decreases |t|
  {
    if t[0] == '\"' {
      body := "";
      assert t == "" + "\"" + t[1..];
    } else if t[0] != '\\' {
      var tail := LexedBody(t[1..]);
      body := [t[0]] + tail;
      BodyCons(t[0], tail, LexString(t[1..]).value.0);
      BodyInFront([t[0]], tail, t[1..], LexString(t).value.1);
    } else {
      var n := if !IsDigit(t[1]) then 2 else 1 + DigitCount(t[1..], 3);
      var tail := LexedBody(t[n..]);
      body := t[..n] + tail;
      EscapeQuotes(t, n);
      BodyEscape(t[..n], LexString(t).value.0[0], tail, LexString(t[n..]).value.0);
      BodyInFront(t[..n], tail, t[n..], LexString(t).value.1);
      assert t == t[..n] + t[n..];
    }
  }

  lemma BodyInFront(head: string, body: string, t: string, rest: string)
    requires t == body + "\"" + rest
    ensures head + t == head + body + "\"" + rest
  {}

  lemma CountOne(c: char, d: char)
    ensures Count([c], d) == if c == d then 1 else 0
  {
    assert [c][1..] == [];
  }

  lemma EscapeQuotes(t: string, n: nat)
    requires |t| >= 2 && t[0] == '\\'
    requires n == if !IsDigit(t[1]) then 2 else 1 + DigitCount(t[1..], 3)
    ensures 2 <= n <= |t|
    ensures Count(t[..n], '\"') == if t[1] == '\"' then 1 else 0
  {
    if !IsDigit(t[1]) {
      assert t[..2] == [t[0]] + [t[1]];
      CountConcat([t[0]], [t[1]], '\"');
      CountOne(t[0], '\"');
      CountOne(t[1], '\"');
    } else {
      DigitsAreDigits(t[1..], 3);
      var digits := t[1..][..n - 1];
      assert t[..n] == [t[0]] + digits;
      CountAbsent(digits, '\"');
      assert ([t[0]] + digits)[1..] == digits;
    }
  }

  /** If an unescaped text is lexed as itself, wherever the lexer then stops, it is safe. */
  lemma LexedAsItselfIsSafe(s: string, rest: string)
    requires LexString(s + "\"" + rest).Some? && LexString(s + "\"" + rest).value.0 == s
    ensures IsLuaSafe(s)
  {
    var t := s + "\"" + rest;
    var body := LexedBody(t);
    CountConcat(s, "\"", '\"');
    CountOne('\"', '\"');
    if |body| > |s| {
      assert s + "\"" <= body by {
        assert forall i | 0 <= i < |body| :: body[i] == t[i];
      }
      CountOfPrefix(s + "\"", body, '\"');
    }
  }

  lemma CountOfPrefix(prefix: string, s: string, c: char)
    requires prefix <= s
    ensures Count(prefix, c) <= Count(s, c)
  {
    CountConcat(prefix, s[|prefix|..], c);
    assert s == prefix + s[|prefix|..];
  }

  lemma {:induction false} SafeStringReadsBack(s: string, rest: string)
    requires IsLuaSafe(s)
    ensures LexString(s + "\"" + rest) == Some((s, rest))
  {
    var t := s + "\"" + rest;
    if s == "" {
      assert t[1..] == rest;
    } else {
      assert s[0] in s && t[0] == s[0];
      SafeStringReadsBack(s[1..], rest);
      assert t[1..] == s[1..] + "\"" + rest;
      assert s == [s[0]] + s[1..];
    }
  }

  // ----- the patterns of validated paths are safe

  lemma PatternCharIsSafe(c: char)
    requires c == '/' || IsPchar(c)
    ensures IsLuaSafe(EscapeChar(c))
  {}

  lemma {:induction false} LuaBodyIsSafe(ts: seq<Token>)
    requires LiteralsAreClean(ts)
    ensures IsLuaSafe(LuaBody(ts))
  {
    if ts != [] {
      LuaBodyIsSafe(ts[1..]);
      if ts[0].Literal? {
        assert ts[0] in ts;
        PatternCharIsSafe(ts[0].c);
      }
    }
  }

  lemma ValidPathPatternIsSafe(path: string)
    requires IsValidPath(path)
    ensures IsLuaSafe(ConvertRequestMatcherPathToLuaPattern(path))
  {
    ValidPathTokens(path);
    PipelineIsOnePass(path);
    LuaBodyIsSafe(Tokenize(path));
  }

  // ----- the patterns of arbitrary paths

  lemma {:induction false} ReplaceKeepsCharacter(s: string, target: string, repl: string, c: char)
    requires target != "" && c !in target && c !in repl
    ensures c in ReplaceAll(s, target, repl) <==> c in s
    decreases |s|
  {
    if s != "" {
      if target <= s {
        ReplaceKeepsCharacter(s[|target|..], target, repl, c);
        assert s == target + s[|target|..];
      } else {
        ReplaceKeepsCharacter(s[1..], target, repl, c);
        assert s == [s[0]] + s[1..];
      }
    }
  }

  lemma {:induction false} EscapeKeepsCharacter(s: string, c: char)
    requires c != '%'
    ensures c in Escape(s) <==> c in s
  {
    if s != "" {
      EscapeKeepsCharacter(s[1..], c);
      assert s == [s[0]] + s[1..];
    }
  }

  lemma InsertionKeepsCharacter(path: string, c: char)
    requires c in UNSAFE_CHARACTERS
    ensures c in InsertPlaceholders(path) <==> c in path
  {
    if ContainsAny(path, "{}") {
      ReplaceKeepsCharacter(path, "{", "", c);
      ReplaceKeepsCharacter(ReplaceAll(path, "{", ""), "}", "", c);
    } else {
      ReplaceKeepsCharacter(path, "*", "**", c);
    }
    var normalized := NormalizeWildcards(path);
    ReplaceKeepsCharacter(normalized, "**", DOUBLE_STAR_PLACEHOLDER, c);
    ReplaceKeepsCharacter(ReplaceAll(normalized, "**", DOUBLE_STAR_PLACEHOLDER), "*", SINGLE_STAR_PLACEHOLDER, c);
  }

  /** Compiling a path neither adds nor removes a quote, a backslash, a line break or a NUL byte. */
  lemma CompilingKeepsCharacter(path: string, c: char)
    requires c in UNSAFE_CHARACTERS
    ensures c in ConvertRequestMatcherPathToLuaPattern(path) <==> c in path
  {
    NoWildcardReachesEscaping(path);
    var escaped := Escape(InsertPlaceholders(path));
    InsertionKeepsCharacter(path, c);
    EscapeKeepsCharacter(InsertPlaceholders(path), c);
    ReplaceKeepsCharacter(escaped, SINGLE_STAR_PLACEHOLDER, "[^/]+", c);
    ReplaceKeepsCharacter(ReplaceAll(escaped, SINGLE_STAR_PLACEHOLDER, "[^/]+"), DOUBLE_STAR_PLACEHOLDER, ".*", c);
  }

  /** For every path, valid or not: its pattern can be printed without escaping if and only if the path
      itself has no quote, backslash, line break or NUL byte. */
  lemma PatternIsSafeIffPathIs(path: string)
    ensures IsLuaSafe(ConvertRequestMatcherPathToLuaPattern(path)) <==> IsLuaSafe(path)
  {
    forall c | c in UNSAFE_CHARACTERS
      ensures c in ConvertRequestMatcherPathToLuaPattern(path) <==> c in path
    {
      CompilingKeepsCharacter(path, c);
    }
    assert forall s: string :: IsLuaSafe(s) <==> forall c | c in UNSAFE_CHARACTERS :: c !in s;
  }
}
