/** Pattern matching as section 5.4.1 of the Lua 5.1 Reference Manual describes it, without
    captures and character classes by letter, and its agreement with the path language. */
module LuaMatcher {
  import opened GoStrings
  import opened PathLanguage
  import opened PathGrammar
  import opened PathValidation
  import opened LuaPattern
  import opened LuaText

  /** Where the set that starts at the head of `p` ends; the character at `i` is not examined before `i`. */
  function SetEnd(p: string, i: nat): (end: nat)
    requires i <= |p|
    ensures i <= end <= |p|
    decreases |p| - i
  {
    if i == |p| then i else if p[i] == ']' then i + 1 else SetEnd(p, i + 1)
  }

  /** The length of the single-character class at the head of a pattern. */
  function ItemLength(p: string): (n: nat)
    requires p != ""
    ensures 1 <= n <= |p|
  {
    if p[0] == '%' then (if |p| == 1 then 1 else 2)
    else if p[0] == '[' then
      var first := if |p| > 1 && p[1] == '^' then 3 else 2;
      if first <= |p| then SetEnd(p, first) else |p|
    else 1
  }

  predicate SetHolds(set_: string, c: char) {
    if set_ != "" && set_[0] == '^' then c !in set_[1..] else c in set_
  }

  predicate SingleMatch(item: string, c: char)
    requires item != ""
  {
    if item[0] == '.' then true
    else if item[0] == '%' then |item| == 2 && c == item[1]
    else if item[0] == '[' then |item| >= 2 && SetHolds(item[1..|item| - 1], c)
    else c == item[0]
  }

  /** Does the pattern match a prefix of the text? Backtracking, greedy repetitions first. */
  predicate MatchHere(p: string, s: string)
    decreases |p|, |s|, 0
  {
    if p == "" then true
    else if p == "$" then s == ""
    else
      var n := ItemLength(p);
      var item := p[..n];
      if n < |p| && p[n] == '?' then
        (s != "" && SingleMatch(item, s[0]) && MatchHere(p[n + 1..], s[1..])) || MatchHere(p[n + 1..], s)
      else if n < |p| && p[n] == '*' then MaxExpand(item, p[n + 1..], s)
      else if n < |p| && p[n] == '+' then s != "" && SingleMatch(item, s[0]) && MaxExpand(item, p[n + 1..], s[1..])
      else if n < |p| && p[n] == '-' then MinExpand(item, p[n + 1..], s)
      else s != "" && SingleMatch(item, s[0]) && MatchHere(p[n..], s[1..])
  }

  predicate MaxExpand(item: string, rest: string, s: string)
    requires item != ""
    decreases |rest|, |s|, 1
  {
    (s != "" && SingleMatch(item, s[0]) && MaxExpand(item, rest, s[1..])) || MatchHere(rest, s)
  }

  predicate MinExpand(item: string, rest: string, s: string)
    requires item != ""
    decreases |rest|, |s|, 1
  {
    MatchHere(rest, s) || (s != "" && SingleMatch(item, s[0]) && MinExpand(item, rest, s[1..]))
  }

  /** Whether `string.match(s, pattern)` finds a match. */
  predicate StringMatch(s: string, pattern: string) {
    if pattern != "" && pattern[0] == '^' then MatchHere(pattern[1..], s)
    else exists i | 0 <= i <= |s| :: MatchHere(pattern, s[i..])
  }

  /** The pattern uses only the constructs that `MatchHere` gives their meaning in Lua: no
      captures, no `%` before a letter or digit, and closed sets of plain characters. */
  predicate HasPlainItems(p: string) {
    if p == "" then true
    else if p[0] == '%' then |p| >= 2 && !IsAlphanumeric(p[1]) && HasPlainItems(p[2..])
    else if p[0] == '[' then
      var n := ItemLength(p);
      p[n - 1] == ']' && n >= 3 && (forall c | c in p[1..n - 1] :: c !in "%-[") && HasPlainItems(p[n..])
    else p[0] !in "()" && HasPlainItems(p[1..])
  }

  /** A pattern, besides, must not contain a NUL byte. */
  predicate InFragment(p: string) {
    NUL !in p && HasPlainItems(p)
  }

  predicate IsAlphanumeric(c: char) {
    'a' <= c <= 'z' || 'A' <= c <= 'Z' || '0' <= c <= '9'
  }

  const SEGMENT_PATTERN := "[^/]+"
  const SEGMENT_ITEM := "[^/]"

  // ----- the items of a compiled path

  lemma SegmentItem(rest: string)
    ensures ItemLength(SEGMENT_PATTERN + rest) == 4 && (SEGMENT_PATTERN + rest)[..4] == SEGMENT_ITEM
    ensures (SEGMENT_PATTERN + rest)[4] == '+' && (SEGMENT_PATTERN + rest)[5..] == rest
    ensures forall c :: SingleMatch(SEGMENT_ITEM, c) <==> c != '/'
  {
    var p := SEGMENT_PATTERN + rest;
    assert p[0] == '[' && p[1] == '^' && p[3] == ']';
    assert SetEnd(p, 3) == 4;
    assert SEGMENT_ITEM[1..3] == "^/" && "^/"[1..] == "/";
  }

  lemma BodyHead(ts: seq<Token>)
    requires LiteralsAreClean(ts)
    ensures var p := LuaBody(ts) + "$"; p[0] !in "*+-?"
  {
    if ts != [] {
      assert ts[0] in ts;
      assert !IsPchar('*');
    }
  }

  /** The item matches `k` characters, and the rest of the pattern what follows them. */
  ghost predicate Repeats(item: string, rest: string, s: string, k: int)
    requires item != ""
  {
    0 <= k <= |s| && (forall i | 0 <= i < k :: SingleMatch(item, s[i])) && MatchHere(rest, s[k..])
  }

  lemma RepeatsOnceMore(item: string, rest: string, s: string, k: nat)
    requires item != "" && s != "" && k > 0
    ensures Repeats(item, rest, s, k) <==> SingleMatch(item, s[0]) && Repeats(item, rest, s[1..], k - 1)
  {
    if k <= |s| {
      assert s[1..][k - 1..] == s[k..];
      assert forall i | 0 <= i < k - 1 :: s[1..][i] == s[i + 1];
      if SingleMatch(item, s[0]) && Repeats(item, rest, s[1..], k - 1) {
        assert forall i | 0 <= i < k :: i == 0 || s[i] == s[1..][i - 1];
      }
    }
  }

  lemma {:induction false} MaxExpandRepeats(item: string, rest: string, s: string) returns (k: nat)
    requires item != "" && MaxExpand(item, rest, s)
    ensures Repeats(item, rest, s, k)
    decreases |s|
  {
    if MatchHere(rest, s) {
      k := 0;
      assert s[0..] == s;
    } else {
      var n := MaxExpandRepeats(item, rest, s[1..]);
      k := n + 1;
      RepeatsOnceMore(item, rest, s, k);
    }
  }

  lemma {:induction false} RepetitionExpands(item: string, rest: string, s: string, k: nat)
    requires item != "" && Repeats(item, rest, s, k)
    ensures MaxExpand(item, rest, s)
    decreases |s|
  {
    if k == 0 {
      assert s[0..] == s;
    } else {
      RepeatsOnceMore(item, rest, s, k);
      RepetitionExpands(item, rest, s[1..], k - 1);
    }
  }

  lemma LiteralItem(c: char, rest: string)
    requires c == '/' || IsPchar(c)
    requires rest != "" && rest[0] !in "*+-?"
    ensures var p := EscapeChar(c) + rest; var n := ItemLength(p);
      && p != "" && p != "$" && n < |p| && p[n..] == rest && p[n] == rest[0]
      && forall x :: SingleMatch(p[..n], x) <==> x == c
  {
    var p := EscapeChar(c) + rest;
    var n := |EscapeChar(c)|;
    assert p[..n] == EscapeChar(c) && p[n..] == rest;
    assert !IsPchar('[') && !IsPchar('*');
  }

  lemma LiteralStep(c: char, rest: string, s: string)
    requires c == '/' || IsPchar(c)
    requires rest != "" && rest[0] !in "*+-?"
    ensures MatchHere(EscapeChar(c) + rest, s) <==> s != "" && s[0] == c && MatchHere(rest, s[1..])
  {
    LiteralItem(c, rest);
  }

  lemma RepeatedSegmentItem(rest: string, s: string, k: nat)
    ensures Repeats(SEGMENT_ITEM, rest, s, k) <==> k <= |s| && '/' !in s[..k] && MatchHere(rest, s[k..])
  {
    SegmentItem(rest);
    if k <= |s| && '/' !in s[..k] {
      assert forall i | 0 <= i < k :: s[i] == s[..k][i] && s[..k][i] in s[..k];
    }
  }

  lemma SegmentHead(rest: string, s: string)
    ensures MatchHere(SEGMENT_PATTERN + rest, s) <==> s != "" && s[0] != '/' && MaxExpand(SEGMENT_ITEM, rest, s[1..])
  {
    SegmentItem(rest);
  }

  lemma SegmentStep(rest: string, s: string)
    ensures MatchHere(SEGMENT_PATTERN + rest, s) <==>
      exists k | 1 <= k <= |s| :: '/' !in s[..k] && MatchHere(rest, s[k..])
  {
    SegmentHead(rest, s);
    if MatchHere(SEGMENT_PATTERN + rest, s) {
      var k := MaxExpandRepeats(SEGMENT_ITEM, rest, s[1..]);
      SegmentItem(rest);
      RepeatsOnceMore(SEGMENT_ITEM, rest, s, k + 1);
      RepeatedSegmentItem(rest, s, k + 1);
    }
    if k :| 1 <= k <= |s| && '/' !in s[..k] && MatchHere(rest, s[k..]) {
      SegmentItem(rest);
      RepeatedSegmentItem(rest, s, k);
      RepeatsOnceMore(SEGMENT_ITEM, rest, s, k);
      RepetitionExpands(SEGMENT_ITEM, rest, s[1..], k - 1);
    }
  }

  lemma AnyTextStep(rest: string, s: string)
    ensures MatchHere(".*" + rest, s) <==> exists k | 0 <= k <= |s| :: MatchHere(rest, s[k..])
  {
    var p := ".*" + rest;
    assert p[..1] == "." && p[1] == '*' && p[2..] == rest;
    if MatchHere(p, s) {
      var k := MaxExpandRepeats(".", rest, s);
    }
    if k :| 0 <= k <= |s| && MatchHere(rest, s[k..]) {
      RepetitionExpands(".", rest, s, k);
    }
  }

  // ----- the compiled pattern and the path language

  lemma {:induction false} BodyMatches(ts: seq<Token>, s: string)
    requires LiteralsAreClean(ts)
    ensures MatchHere(LuaBody(ts) + "$", s) <==> Matches(ts, s)
  {
    if ts == [] {
      assert LuaBody(ts) + "$" == "$";
    } else {
      var rest := LuaBody(ts[1..]) + "$";
      assert LiteralsAreClean(ts[1..]);
      forall k | 0 <= k <= |s| ensures MatchHere(rest, s[k..]) <==> Matches(ts[1..], s[k..]) {
        BodyMatches(ts[1..], s[k..]);
      }
      match ts[0]
      case Literal(c) =>
        assert ts[0] in ts;
        assert LuaBody(ts) + "$" == EscapeChar(c) + rest;
        BodyHead(ts[1..]);
        LiteralStep(c, rest, s);
        MatchesLiteral(c, ts[1..], s);
        assert [Literal(c)] + ts[1..] == ts;
      case OneSegment =>
        assert LuaBody(ts) + "$" == SEGMENT_PATTERN + rest;
        SegmentStep(rest, s);
        assert forall k | 0 <= k <= |s| :: Stands(OneSegment, s[..k]) <==> 1 <= k && '/' !in s[..k];
      case AnyText =>
        assert LuaBody(ts) + "$" == ".*" + rest;
        AnyTextStep(rest, s);
        assert forall k | 0 <= k <= |s| :: Stands(AnyText, s[..k]);
    }
  }

  /** For every validated path and every request path, Lua's matcher succeeds on the generated
      pattern if and only if the request path is in the language of the path. */
  lemma GeneratedPatternDenotesThePath(path: string, s: string)
    requires IsValidPath(path)
    ensures StringMatch(s, ConvertRequestMatcherPathToLuaPattern(path)) <==> InLanguage(path, s)
  {
    ValidPathTokens(path);
    PipelineIsOnePass(path);
    BodyMatches(Tokenize(path), s);
    assert ConvertRequestMatcherPathToLuaPattern(path)[1..] == LuaBody(Tokenize(path)) + "$";
  }

  // ----- patterns of arbitrary texts

  /** A character that an escaped text carries as it is. */
  predicate IsPlainPatternChar(c: char) {
    c !in LUA_MAGIC_CHARACTERS && c != '*'
  }

  /** Plain characters, escaped magic characters and the two wildcard patterns. */
  predicate IsPatternText(s: string) {
    if s == "" then true
    else if s[0] == '%' then |s| >= 2 && s[1] in LUA_MAGIC_CHARACTERS && IsPatternText(s[2..])
    else if SEGMENT_PATTERN <= s then IsPatternText(s[|SEGMENT_PATTERN|..])
    else if ".*" <= s then IsPatternText(s[2..])
    else IsPlainPatternChar(s[0]) && IsPatternText(s[1..])
  }

  lemma PlainCharThenPatternText(c: char, rest: string)
    requires IsPlainPatternChar(c)
    ensures IsPatternText([c] + rest) <==> IsPatternText(rest)
  {
    var s := [c] + rest;
    assert s[0] == c && s[1..] == rest;
  }

  lemma MagicCharThenPatternText(c: char, rest: string)
    requires c in LUA_MAGIC_CHARACTERS
    ensures IsPatternText(['%', c] + rest) <==> IsPatternText(rest)
  {
    var s := ['%', c] + rest;
    assert s[0] == '%' && s[1] == c && s[2..] == rest;
  }

  lemma WildcardThenPatternText(wildcard: string, rest: string)
    requires wildcard == SEGMENT_PATTERN || wildcard == ".*"
    ensures IsPatternText(wildcard + rest) <==> IsPatternText(rest)
  {
    var s := wildcard + rest;
    assert s[|wildcard|..] == rest;
  }

  lemma {:induction false} EscapedIsPatternText(s: string)
    requires '*' !in s
    ensures IsPatternText(Escape(s))
  {
    if s != "" {
      EscapedIsPatternText(s[1..]);
      if s[0] in LUA_MAGIC_CHARACTERS {
        MagicCharThenPatternText(s[0], Escape(s[1..]));
      } else {
        PlainCharThenPatternText(s[0], Escape(s[1..]));
      }
    }
  }

  lemma HeadAndTail(prefix: string, rest: string)
    requires prefix != ""
    ensures prefix + rest == [prefix[0]] + (prefix[1..] + rest)
    ensures forall c | c in prefix[1..] :: c in prefix
  {}

  lemma {:induction false} PlainPrefixOfPatternText(prefix: string, rest: string)
    requires forall c | c in prefix :: IsPlainPatternChar(c)
    ensures IsPatternText(prefix + rest) <==> IsPatternText(rest)
  {
    if prefix == "" {
      assert prefix + rest == rest;
    } else {
      HeadAndTail(prefix, rest);
      assert prefix[0] in prefix;
      PlainPrefixOfPatternText(prefix[1..], rest);
      PlainCharThenPatternText(prefix[0], prefix[1..] + rest);
    }
  }

  /** A placeholder: plain characters behind a `<`. */
  predicate IsPlaceholder(target: string) {
    target != "" && target[0] == '<' && forall c | c in target :: IsPlainPatternChar(c)
  }

  lemma ReplacePastUnit(target: string, repl: string, unit_: string, rest: string)
    requires IsPlaceholder(target) && '<' !in unit_
    ensures ReplaceAll(unit_ + rest, target, repl) == unit_ + ReplaceAll(rest, target, repl)
  {
    ReplaceSkipClean(unit_, rest, target, repl);
  }

  /** Replacing a placeholder, wherever it came from, by a wildcard keeps a pattern text one. */
  lemma {:induction false} ReplaceInPatternText(s: string, target: string, wildcard: string)
    requires IsPatternText(s) && IsPlaceholder(target)
    requires wildcard == SEGMENT_PATTERN || wildcard == ".*"
    ensures IsPatternText(ReplaceAll(s, target, wildcard))
    decreases |s|
  {
    if s != "" {
      if target <= s {
        var rest := s[|target|..];
        assert s == target + rest;
        PlainPrefixOfPatternText(target, rest);
        ReplaceInPatternText(rest, target, wildcard);
        WildcardThenPatternText(wildcard, ReplaceAll(rest, target, wildcard));
      } else {
        ReplaceInUnit(s, target, wildcard);
      }
    }
  }

  /** How long the unit at the head of a pattern text is. */
  function UnitLength(s: string): (n: nat)
    requires s != "" && IsPatternText(s)
    ensures 1 <= n <= |s|
  {
    if s[0] == '%' then 2 else if SEGMENT_PATTERN <= s then |SEGMENT_PATTERN| else if ".*" <= s then 2 else 1
  }

  lemma ReplaceInUnit(s: string, target: string, wildcard: string)
    requires s != "" && IsPatternText(s) && IsPlaceholder(target) && !(target <= s)
    requires wildcard == SEGMENT_PATTERN || wildcard == ".*"
    ensures IsPatternText(ReplaceAll(s, target, wildcard))
    decreases |s|, 0
  {
    var n := UnitLength(s);
    var unit_, rest := s[..n], s[n..];
    assert s == unit_ + rest;
    ReplaceInPatternText(rest, target, wildcard);
    var replaced := ReplaceAll(rest, target, wildcard);
    if s[0] == '%' {
      assert unit_ == ['%', s[1]];
      ReplacePastUnit(target, wildcard, unit_, rest);
      MagicCharThenPatternText(s[1], replaced);
    } else if SEGMENT_PATTERN <= s || ".*" <= s {
      assert unit_ == if SEGMENT_PATTERN <= s then SEGMENT_PATTERN else ".*";
      ReplacePastUnit(target, wildcard, unit_, rest);
      WildcardThenPatternText(unit_, replaced);
    } else {
      PlainCharThenPatternText(s[0], replaced);
    }
  }

  lemma SingleStarIsPlaceholder()
    ensures IsPlaceholder(SINGLE_STAR_PLACEHOLDER)
  {}

  lemma DoubleStarIsPlaceholder()
    ensures IsPlaceholder(DOUBLE_STAR_PLACEHOLDER)
  {}

  lemma ExpandedIsPatternText(escaped: string)
    requires IsPatternText(escaped)
    ensures IsPatternText(
      ReplaceAll(ReplaceAll(escaped, SINGLE_STAR_PLACEHOLDER, SEGMENT_PATTERN), DOUBLE_STAR_PLACEHOLDER, ".*"))
  {
    SingleStarIsPlaceholder();
    DoubleStarIsPlaceholder();
    ReplaceInPatternText(escaped, SINGLE_STAR_PLACEHOLDER, SEGMENT_PATTERN);
    ReplaceInPatternText(ReplaceAll(escaped, SINGLE_STAR_PLACEHOLDER, SEGMENT_PATTERN), DOUBLE_STAR_PLACEHOLDER, ".*");
  }

  lemma GeneratedIsPatternText(path: string)
    ensures IsPatternText(ToLuaPattern(path))
  {
    NoWildcardReachesEscaping(path);
    assert '*' in "*{}";
    EscapedIsPatternText(InsertPlaceholders(path));
    ExpandedIsPatternText(Escape(InsertPlaceholders(path)));
  }

  lemma AnyTextHasPlainItems(rest: string)
    requires HasPlainItems(rest)
    ensures HasPlainItems(".*" + rest)
  {
    var p := ".*" + rest;
    assert p[0] == '.' && p[1..] == "*" + rest;
    assert ("*" + rest)[0] == '*' && ("*" + rest)[1..] == rest;
  }

  lemma SegmentHasPlainItems(rest: string)
    requires HasPlainItems(rest)
    ensures HasPlainItems(SEGMENT_PATTERN + rest)
  {
    var p := SEGMENT_PATTERN + rest;
    SegmentItem(rest);
    assert p[1..3] == "^/";
    assert p[4..] == "+" + rest;
    assert ("+" + rest)[1..] == rest;
  }

  lemma MagicCharHasPlainItems(c: char, rest: string)
    requires c in LUA_MAGIC_CHARACTERS && HasPlainItems(rest)
    ensures HasPlainItems(['%', c] + rest)
  {
    var p := ['%', c] + rest;
    assert p[0] == '%' && p[1] == c && p[2..] == rest;
  }

  lemma PlainCharHasPlainItems(c: char, rest: string)
    requires IsPlainPatternChar(c) && HasPlainItems(rest)
    ensures HasPlainItems([c] + rest)
  {
    var p := [c] + rest;
    assert p[0] == c && p[1..] == rest;
  }

  lemma {:induction false} PatternTextHasPlainItems(s: string)
    requires IsPatternText(s)
    ensures HasPlainItems(s + "$")
  {
    if s == "" {
      assert s + "$" == "$" && "$"[1..] == "";
    } else {
      var n := UnitLength(s);
      var unit_, rest := s[..n], s[n..] + "$";
      assert s + "$" == unit_ + rest;
      PatternTextHasPlainItems(s[n..]);
      if s[0] == '%' {
        assert unit_ == ['%', s[1]];
        MagicCharHasPlainItems(s[1], rest);
      } else if SEGMENT_PATTERN <= s {
        assert unit_ == SEGMENT_PATTERN;
        SegmentHasPlainItems(rest);
      } else if ".*" <= s {
        assert unit_ == ".*";
        AnyTextHasPlainItems(rest);
      } else {
        assert unit_ == [s[0]];
        PlainCharHasPlainItems(s[0], rest);
      }
    }
  }

  /** Whatever the path, valid or not: its pattern stays inside the fragment of Lua patterns that is
      modelled, and is a Lua pattern at all, if and only if the path has no NUL byte. */
  lemma GeneratedPatternInFragment(path: string)
    ensures InFragment(ConvertRequestMatcherPathToLuaPattern(path)) <==> NUL !in path
  {
    GeneratedIsPatternText(path);
    PatternTextHasPlainItems(ToLuaPattern(path));
    assert ConvertRequestMatcherPathToLuaPattern(path)[1..] == ToLuaPattern(path) + "$";
    assert NUL == UNSAFE_CHARACTERS[4];
    CompilingKeepsCharacter(path, NUL);
  }
}
