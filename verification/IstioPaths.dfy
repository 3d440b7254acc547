/** The rewrite of validated paths to Istio's path syntax, and what Istio makes of the result. */
module IstioPaths {
  import opened GoStrings
  import opened PathLanguage
  import opened PathGrammar
  import opened PathTemplates
  import opened PathValidation

  function TransformPathForIstio(path: string): string {
    if !HasSuffix(path, MATCH_ANY_TEMPLATE) then path
    else
      var trimmed := TrimSuffix(path, MATCH_ANY_TEMPLATE);
      if HasSuffix(trimmed, "/") then path
      else if Contains(trimmed, MATCH_ONE_TEMPLATE) || Contains(trimmed, MATCH_ANY_TEMPLATE) then path
      else trimmed + "*"
  }

  function TransformPaths(paths: seq<string>): (transformed: seq<string>)
    ensures |transformed| == |paths|
    ensures forall i | 0 <= i < |paths| :: transformed[i] == TransformPathForIstio(paths[i])
  {
    seq(|paths|, i requires 0 <= i < |paths| => TransformPathForIstio(paths[i]))
  }

  method TransformPathsForIstio(paths: seq<string>) returns (transformed: seq<string>)
    ensures transformed == TransformPaths(paths)
  {
    var buffer := new string[|paths|](_ => "");
    for i := 0 to |paths|
      invariant forall j | 0 <= j < i :: buffer[j] == TransformPathForIstio(paths[j])
    {
      buffer[i] := TransformPathForIstio(paths[i]);
    }
    transformed := buffer[..];
  }

  // ----- Istio's reading of a path

  predicate ContainsPathTemplate(pattern: string) {
    Contains(pattern, MATCH_ONE_TEMPLATE) || Contains(pattern, MATCH_ANY_TEMPLATE)
  }

  predicate IsIstioSegment(text: string) {
    text == MATCH_ONE_TEMPLATE || text == MATCH_ANY_TEMPLATE || !ContainsAny(text, "{}")
  }

  /** In a path template every operator is a segment of its own, and there is no other use of brackets. */
  predicate IsIstioPath(pattern: string) {
    ContainsPathTemplate(pattern) ==>
      forall segment | segment in ToPathSegments(pattern) :: IsIstioSegment(segment)
  }

  /** Template (segment by segment), presence, suffix, prefix and exact match, in this order. */
  ghost predicate IstioPathMatches(pattern: string, path: string) {
    if ContainsPathTemplate(pattern) then TemplateMatches(pattern, path)
    else if pattern == "*" then path != ""
    else if HasPrefix(pattern, "*") then HasSuffix(path, pattern[1..])
    else if HasSuffix(pattern, "*") then HasPrefix(path, TrimSuffix(pattern, "*"))
    else path == pattern
  }

  /** The path ends in a `prefix{**}` segment followed by slashes. */
  predicate SlashAfterEmbeddedAny(path: string) {
    var trimmed := TrimRight(path, '/');
    && HasSuffix(path, "/")
    && HasSuffix(trimmed, MATCH_ANY_TEMPLATE)
    && !HasSuffix(TrimSuffix(trimmed, MATCH_ANY_TEMPLATE), "/")
  }

  // ----- the end of a template

  lemma SuffixOfConcat(a: string, b: string, suffix: string)
    requires (HasSuffix(a, suffix) && b == "") || HasSuffix(b, suffix)
    ensures HasSuffix(a + b, suffix)
  {
    if HasSuffix(b, suffix) {
      assert (a + b)[|a + b| - |suffix|..] == b[|b| - |suffix|..];
    } else {
      assert a + b == a;
    }
  }

  lemma {:induction false} JoinLast(parts: seq<string>, sep: string) returns (head: string)
    requires parts != []
    ensures Join(parts, sep) == head + parts[|parts| - 1]
    ensures if |parts| == 1 then head == "" else HasSuffix(head, sep)
    ensures forall c | c in head :: c in sep || exists i | 0 <= i < |parts| - 1 :: c in parts[i]
  {
    if |parts| == 1 {
      head := "";
    } else {
      var first, rest := parts[0], parts[1..];
      var h := JoinLast(rest, sep);
      head := first + sep + h;
      SuffixOfConcat(first + sep, h, sep);
      ConcatAssociates(first + sep, h, rest[|rest| - 1]);
      forall c | c in head ensures c in sep || exists i | 0 <= i < |parts| - 1 :: c in parts[i] {
        if c in h && c !in sep {
          var i :| 0 <= i < |rest| - 1 && c in rest[i];
          assert c in parts[i + 1];
        }
      }
    }
  }

  lemma LiteralEnd(head: string, text: string)
    requires IsLiteral(text)
    ensures !HasSuffix(head + text, MATCH_ANY_TEMPLATE)
  {
    var core, c := head + text, text[|text| - 1];
    assert !IsPchar('}');
    assert c in text;
    LastCharacter(core, c);
    SuffixesAgree(core, MATCH_ANY_TEMPLATE, c);
  }

  lemma MatchOneEnd(head: string)
    ensures !HasSuffix(head + MATCH_ONE_TEMPLATE, MATCH_ANY_TEMPLATE)
  {
    var core := head + MATCH_ONE_TEMPLATE;
    if |core| >= 4 {
      assert core[|core| - 4..][1] == core[|core| - 3] == '{';
    }
  }

  lemma MatchAnyEnd(head: string)
    ensures HasSuffix(head + MATCH_ANY_TEMPLATE, MATCH_ANY_TEMPLATE)
    ensures TrimSuffix(head + MATCH_ANY_TEMPLATE, MATCH_ANY_TEMPLATE) == head
  {
    var core := head + MATCH_ANY_TEMPLATE;
    assert core[|core| - 4..] == MATCH_ANY_TEMPLATE;
  }

  lemma PrefixAnyEnd(head: string, prefix: string)
    requires IsLiteral(prefix)
    ensures var core := head + ShowSegment(PrefixAny(prefix));
      && HasSuffix(core, MATCH_ANY_TEMPLATE)
      && TrimSuffix(core, MATCH_ANY_TEMPLATE) == head + prefix
      && !HasSuffix(head + prefix, "/")
  {
    LiteralEnds(prefix);
    LastCharacter(head + prefix, '/');
    MatchAnyEnd(head + prefix);
    ConcatAssociates(head, prefix, MATCH_ANY_TEMPLATE);
  }

  /** How a path without trailing slashes ends, by its last segment. */
  lemma LastSegmentEnd(head: string, last: Segment)
    requires WellFormedSegment(last)
    ensures var core := head + ShowSegment(last);
      && (HasSuffix(core, MATCH_ANY_TEMPLATE) <==> last.Any? || last.PrefixAny?)
      && (last.Any? ==> TrimSuffix(core, MATCH_ANY_TEMPLATE) == head)
      && (last.PrefixAny? ==> TrimSuffix(core, MATCH_ANY_TEMPLATE) == head + last.prefix
                              && !HasSuffix(head + last.prefix, "/"))
  {
    match last
    case Lit(text) => LiteralEnd(head, text);
    case One => MatchOneEnd(head);
    case Any => MatchAnyEnd(head);
    case PrefixAny(prefix) => PrefixAnyEnd(head, prefix);
  }

  lemma LastSegmentIsNotSlash(head: string, last: Segment)
    requires WellFormedSegment(last)
    ensures var core := head + ShowSegment(last); core != "" && core[|core| - 1] != '/'
  {
    SegmentText(last);
  }

  /** The text before the last segment ends in a slash, as it starts. */
  lemma SlashedEnds(lead: nat, h: string)
    requires lead >= 1 && (h == "" || HasSuffix(h, "/"))
    ensures HasPrefix(Repeat('/', lead) + h, "/") && HasSuffix(Repeat('/', lead) + h, "/")
  {
    var head := Repeat('/', lead) + h;
    LastCharacter(h, '/');
    LastCharacter(head, '/');
  }

  lemma PlainHead(segments: seq<Segment>, lead: nat, h: string, prefix: string)
    requires IsLiteral(prefix)
    requires forall i | 0 <= i < |segments| - 1 :: segments[i].Lit? && WellFormedSegment(segments[i])
    requires forall c | c in h ::
      c in "/" || exists i | 0 <= i < |segments| - 1 :: c in ShowSegments(segments)[i]
    ensures IsPlainText(Repeat('/', lead) + h + prefix)
  {
    forall c | c in h ensures c == '/' || IsPchar(c) {}
  }

  lemma RegroupHead(r: string, h: string, s: string, t: string)
    ensures r + (h + s) + t == (r + h) + s + t
  {}

  lemma LiteralsBeforeEmbedded(segments: seq<Segment>)
    requires forall i | 0 <= i < |segments| :: WellFormedSegment(segments[i])
    requires WellOrdered(segments) && segments != [] && segments[|segments| - 1].PrefixAny?
    ensures IsLiteral(segments[|segments| - 1].prefix)
    ensures forall i | 0 <= i < |segments| - 1 :: segments[i].Lit? && WellFormedSegment(segments[i])
  {}

  lemma TemplateEnd(form: PathForm) returns (head: string, last: Segment)
    requires WellFormed(form) && form.Template?
    ensures form.segments != [] && last == form.segments[|form.segments| - 1] && WellFormedSegment(last)
    ensures Show(form) == head + ShowSegment(last) + Repeat('/', form.trail)
    ensures HasPrefix(head, "/") && HasSuffix(head, "/")
    ensures last.PrefixAny? ==> IsPlainText(head + last.prefix)
  {
    var Template(lead, segments, trail) := form;
    var h := JoinLast(ShowSegments(segments), "/");
    head := Repeat('/', lead) + h;
    last := segments[|segments| - 1];
    SlashedEnds(lead, h);
    RegroupHead(Repeat('/', lead), h, ShowSegment(last), Repeat('/', trail));
    if last.PrefixAny? {
      LiteralsBeforeEmbedded(segments);
      PlainHead(segments, lead, h, last.prefix);
    }
  }

  lemma PlainTextHasNoTemplate(text: string, tail: string)
    requires IsPlainText(text) && (tail == "" || tail == "*")
    ensures !ContainsPathTemplate(text + tail) && !ContainsAny(text + tail, "{}")
  {
    var s := text + tail;
    assert !IsPchar('{') && !IsPchar('}');
    forall c | c in s ensures c !in "{}" {}
    forall i | 0 <= i <= |s| ensures !(MATCH_ONE_TEMPLATE <= s[i..]) && !(MATCH_ANY_TEMPLATE <= s[i..]) {
      if i < |s| { assert s[i] in s; }
    }
  }

  lemma PlainTextHasNoOperator(text: string)
    requires IsPlainText(text)
    ensures !ContainsPathTemplate(text)
  {
    PlainTextHasNoTemplate(text, "");
    assert text + "" == text;
  }

  lemma PlainTextEnd(text: string, tail: string)
    requires IsPlainText(text) && (tail == "" || tail == "*")
    ensures !HasSuffix(text + tail, MATCH_ANY_TEMPLATE) && !SlashAfterEmbeddedAny(text + tail)
  {
    var s := text + tail;
    PlainTextHasNoTemplate(text, tail);
    var n := TrimRightShape(s, '/');
    assert '}' in "{}" && '}' in MATCH_ANY_TEMPLATE;
    SuffixCharacter(s, MATCH_ANY_TEMPLATE, '}');
    SuffixCharacter(TrimRight(s, '/'), MATCH_ANY_TEMPLATE, '}');
  }

  /** The rewrite of a template, by its last segment. */
  lemma TransformEnd(path: string, head: string, last: Segment, trail: nat)
    requires WellFormedSegment(last) && path == head + ShowSegment(last) + Repeat('/', trail)
    requires HasSuffix(head, "/") && (last.PrefixAny? ==> IsPlainText(head + last.prefix))
    ensures TransformPathForIstio(path) == if last.PrefixAny? && trail == 0 then head + last.prefix + "*" else path
  {
    var core := head + ShowSegment(last);
    LastSegmentEnd(head, last);
    LastCharacter(path, '/');
    SuffixesAgree(path, MATCH_ANY_TEMPLATE, '/');
    if trail == 0 {
      assert path == core;
    }
    if last.PrefixAny? {
      PlainTextHasNoOperator(head + last.prefix);
    }
  }

  lemma SlashAfterEnd(path: string, head: string, last: Segment, trail: nat)
    requires WellFormedSegment(last) && path == head + ShowSegment(last) + Repeat('/', trail)
    requires HasSuffix(head, "/")
    ensures SlashAfterEmbeddedAny(path) <==> last.PrefixAny? && trail > 0
  {
    var core := head + ShowSegment(last);
    LastSegmentEnd(head, last);
    LastSegmentIsNotSlash(head, last);
    TrimRightRun(core, trail, '/');
    LastCharacter(path, '/');
    if trail == 0 {
      assert path == core;
    }
  }

  /** Which paths the rewrite changes: those ending in `prefix{**}`. */
  lemma TransformChangesOnlyEmbeddedAny(form: PathForm)
    requires WellFormed(form)
    ensures TransformPathForIstio(Show(form)) != Show(form) <==>
      form.Template? && form.trail == 0 && form.segments[|form.segments| - 1].PrefixAny?
  {
    match form
    case Plain(text) =>
      assert text + "" == text;
      PlainTextEnd(text, "");
    case LegacyStar(prefix) => PlainTextEnd(prefix, "*");
    case Template(_, _, _) =>
      var head, last := TemplateEnd(form);
      TransformEnd(Show(form), head, last, form.trail);
      SlashAfterEnd(Show(form), head, last, form.trail);
      LastSegmentEnd(head, last);
      if last.PrefixAny? && form.trail == 0 {
        assert |Show(form)| == |TransformPathForIstio(Show(form))| + 3;
      }
  }

  /** Rewriting twice is rewriting once, for any text. */
  lemma TransformIsIdempotent(path: string)
    ensures TransformPathForIstio(TransformPathForIstio(path)) == TransformPathForIstio(path)
  {
    var once := TransformPathForIstio(path);
    if once != path {
      assert once[|once| - 1] == '*';
    }
  }

  lemma NoSlashBehindOperator(core: string, trail: nat)
    requires HasSuffix(core + Repeat('/', trail), MATCH_ANY_TEMPLATE)
    ensures trail == 0 && core + Repeat('/', trail) == core
  {
    var path := core + Repeat('/', trail);
    LastCharacter(path, '/');
    SuffixesAgree(path, MATCH_ANY_TEMPLATE, '/');
  }

  lemma TemplateWithoutMixedOperators(form: PathForm)
    requires WellFormed(form) && form.Template? && HasSuffix(Show(form), MATCH_ANY_TEMPLATE)
    ensures var trimmed := TrimSuffix(Show(form), MATCH_ANY_TEMPLATE);
      HasSuffix(trimmed, "/") || !ContainsPathTemplate(trimmed)
  {
    var head, last := TemplateEnd(form);
    NoSlashBehindOperator(head + ShowSegment(last), form.trail);
    LastSegmentEnd(head, last);
    if last.PrefixAny? {
      PlainTextHasNoOperator(head + last.prefix);
    }
  }

  /** On validated input the "other operators" branch is never taken. */
  lemma OtherOperatorsBranchIsUnreachable(path: string)
    requires IsValidPath(path) && HasSuffix(path, MATCH_ANY_TEMPLATE)
    ensures var trimmed := TrimSuffix(path, MATCH_ANY_TEMPLATE);
      HasSuffix(trimmed, "/") || !ContainsPathTemplate(trimmed)
  {
    var form := FormOfValidPath(path);
    match form
    case Plain(text) =>
      assert text + "" == text;
      PlainTextEnd(text, "");
    case LegacyStar(prefix) => PlainTextEnd(prefix, "*");
    case Template(_, _, _) => TemplateWithoutMixedOperators(form);
  }

  lemma TemplateHasOperator(form: PathForm, i: nat)
    requires WellFormed(form) && form.Template? && i < |form.segments| && !form.segments[i].Lit?
    ensures ContainsPathTemplate(Show(form))
  {
    var Template(lead, segments, trail) := form;
    var texts := ShowSegments(segments);
    var operator := if segments[i].One? then MATCH_ONE_TEMPLATE else MATCH_ANY_TEMPLATE;
    assert operator <= texts[i][|texts[i]| - |operator|..];
    ContainsInJoin(texts, "/", i, operator);
    ContainsInside(Repeat('/', lead), Join(texts, "/"), Repeat('/', trail), operator);
  }

  lemma EmbeddedAnyIsNotIstioSegment(prefix: string)
    requires IsLiteral(prefix)
    ensures var text := prefix + MATCH_ANY_TEMPLATE;
      text != MATCH_ONE_TEMPLATE && text != MATCH_ANY_TEMPLATE && ContainsAny(text, "{}")
  {
    var text := prefix + MATCH_ANY_TEMPLATE;
    assert text[0] == prefix[0] && prefix[0] in prefix;
    assert !IsPchar('{');
    assert text[|prefix|] == '{' && '{' in "{}";
  }

  lemma EmbeddedAnyIsNotIstioPath(form: PathForm)
    requires WellFormed(form) && form.Template? && form.segments[|form.segments| - 1].PrefixAny?
    ensures !IsIstioPath(Show(form))
  {
    var n := |form.segments| - 1;
    TemplateHasOperator(form, n);
    TemplateSegments(form);
    EmbeddedAnyIsNotIstioSegment(form.segments[n].prefix);
    assert ShowSegments(form.segments)[n] in ToPathSegments(Show(form));
  }

  lemma StandaloneIsIstioSegment(segment: Segment)
    requires WellFormedSegment(segment)
    ensures IsIstioSegment(ShowSegment(segment)) <==> !segment.PrefixAny?
  {
    assert !IsPchar('{') && !IsPchar('}');
    if segment.PrefixAny? {
      EmbeddedAnyIsNotIstioSegment(segment.prefix);
    }
  }

  lemma StandaloneAreIstioSegments(segments: seq<Segment>)
    requires forall i | 0 <= i < |segments| :: WellFormedSegment(segments[i]) && !segments[i].PrefixAny?
    ensures forall text | text in ShowSegments(segments) :: IsIstioSegment(text)
  {
    var texts := ShowSegments(segments);
    forall text | text in texts ensures IsIstioSegment(text) {
      var i :| 0 <= i < |texts| && texts[i] == text;
      StandaloneIsIstioSegment(segments[i]);
    }
  }

  lemma StandaloneOperatorsAreIstioPath(form: PathForm)
    requires WellFormed(form) && form.Template? && !form.segments[|form.segments| - 1].PrefixAny?
    ensures IsIstioPath(Show(form))
  {
    var segments := form.segments;
    assert forall i | 0 <= i < |segments| :: WellFormedSegment(segments[i]) && !segments[i].PrefixAny?;
    StandaloneAreIstioSegments(segments);
    TemplateSegments(form);
  }

  /** The rewritten path is valid Istio syntax except when slashes follow a `prefix{**}` segment. */
  lemma RewriteIsIstioSyntax(path: string)
    requires IsValidPath(path)
    ensures IsIstioPath(TransformPathForIstio(path)) <==> !SlashAfterEmbeddedAny(path)
  {
    var form := FormOfValidPath(path);
    match form
    case Plain(text) =>
      PlainTextEnd(text, "");
      PlainTextHasNoTemplate(text, "");
      assert text + "" == text;
    case LegacyStar(prefix) =>
      PlainTextEnd(prefix, "*");
      PlainTextHasNoTemplate(prefix, "*");
    case Template(_, _, _) =>
      var head, last := TemplateEnd(form);
      TransformEnd(Show(form), head, last, form.trail);
      SlashAfterEnd(Show(form), head, last, form.trail);
      if last.PrefixAny? {
        PlainTextHasNoTemplate(head + last.prefix, "*");
        EmbeddedAnyIsNotIstioPath(form);
      } else {
        StandaloneOperatorsAreIstioPath(form);
      }
  }

  /** A validated path that is not rewritten to an Istio path. */
  lemma SlashAfterEmbeddedAnyIsPossible()
    ensures IsValidPath("/a{**}/") && !IsIstioPath(TransformPathForIstio("/a{**}/"))
  {
    var form := Template(1, [PrefixAny("a")], 1);
    assert form.segments[0].PrefixAny?;
    assert ShowSegment(PrefixAny("a")) == "a{**}";
    assert Show(form) == "/a{**}/";
    TemplateAccepted(form);
    LastCharacter("/a{**}/", '/');
    SuffixesAgree("/a{**}/", MATCH_ANY_TEMPLATE, '/');
    EmbeddedAnyIsNotIstioPath(form);
  }

  lemma PrefixPatternLanguage(text: string, path: string)
    requires IsPlainText(text) && HasPrefix(text, "/")
    ensures IstioPathMatches(text + "*", path) <==> text <= path
    ensures InLanguage(text + "*", path) <==> text <= path
  {
    var pattern := text + "*";
    PlainTextHasNoTemplate(text, "*");
    assert pattern[0] == '/';
    assert TrimSuffix(pattern, "*") == text;
    assert !IsPchar('*') && !IsPchar('{') && !IsPchar('}');
    TokenizePlain(text, "*");
    assert Tokenize("*") == [AnyText] by { assert "*"[1..] == ""; }
    PrefixLanguage(text, path);
  }

  lemma PlainPatternLanguage(text: string, path: string)
    requires IsPlainText(text) && HasPrefix(text, "/")
    ensures IstioPathMatches(text, path) <==> path == text
    ensures InLanguage(text, path) <==> path == text
  {
    PlainTextHasNoTemplate(text, "");
    assert text + "" == text;
    assert !IsPchar('*') && !IsPchar('{') && !IsPchar('}');
    assert text[|text| - 1] in text;
    TokenizeLiteralPath(text);
    LiteralLanguage(text, path);
  }

  lemma EmbeddedAnyLanguage(text: string, path: string)
    requires IsPlainText(text)
    ensures InLanguage(text + MATCH_ANY_TEMPLATE, path) <==> text <= path
  {
    assert !IsPchar('*') && !IsPchar('{') && !IsPchar('}');
    TokenizePlain(text, MATCH_ANY_TEMPLATE);
    assert Tokenize(MATCH_ANY_TEMPLATE) == [AnyText] by { assert MATCH_ANY_TEMPLATE[4..] == ""; }
    PrefixLanguage(text, path);
  }

  // ----- the segments of a template

  ghost predicate PartsAreWithin(s: string, texts: seq<string>) {
    forall part | part in Split(s, '/') :: part == "" || part in texts
  }

  lemma {:induction false} LeadingSlashesKeepParts(n: nat, s: string, texts: seq<string>)
    requires PartsAreWithin(s, texts)
    ensures PartsAreWithin(Repeat('/', n) + s, texts)
  {
    if n == 0 {
      assert Repeat('/', n) + s == s;
    } else {
      LeadingSlashesKeepParts(n - 1, s, texts);
      assert (Repeat('/', n) + s)[1..] == Repeat('/', n - 1) + s;
    }
  }

  lemma {:induction false} TrailingSlashesKeepParts(s: string, n: nat, texts: seq<string>)
    requires PartsAreWithin(s, texts)
    ensures PartsAreWithin(s + Repeat('/', n), texts)
  {
    if n == 0 {
      assert s + Repeat('/', n) == s;
    } else {
      TrailingSlashesKeepParts(s, n - 1, texts);
      var t := s + Repeat('/', n - 1);
      SplitConcat(t, '/', "");
      assert s + Repeat('/', n) == t + ['/'] + "";
    }
  }

  lemma TemplateParts(form: PathForm)
    requires WellFormed(form) && form.Template?
    ensures PartsAreWithin(Show(form), ShowSegments(form.segments))
  {
    var Template(lead, segments, trail) := form;
    var texts := ShowSegments(segments);
    forall p | p in texts ensures '/' !in p {
      var i :| 0 <= i < |texts| && texts[i] == p;
      SegmentText(segments[i]);
    }
    SplitJoin(texts, '/');
    LeadingSlashesKeepParts(lead, Join(texts, "/"), texts);
    TrailingSlashesKeepParts(Repeat('/', lead) + Join(texts, "/"), trail, texts);
  }

  lemma SegmentIsSimple(segment: Segment)
    requires WellFormedSegment(segment) && !segment.PrefixAny?
    ensures IsSimpleSegment(ShowSegment(segment))
  {
    assert !IsPchar('*') && !IsPchar('{') && !IsPchar('}') && !IsPchar('/');
  }

  /** Standalone operators mean in Istio's template syntax what they mean in a request path. */
  lemma TemplatePatternLanguage(form: PathForm, request: string)
    requires WellFormed(form) && form.Template? && !form.segments[|form.segments| - 1].PrefixAny?
    ensures IstioPathMatches(Show(form), request) <==> InLanguage(Show(form), request)
  {
    var pattern, segments := Show(form), form.segments;
    var i :| 0 <= i < |segments| && !segments[i].Lit?;
    TemplateHasOperator(form, i);
    TemplateParts(form);
    forall part | part in Split(pattern, '/') ensures IsSimpleSegment(part) {
      if part in ShowSegments(segments) {
        var j :| 0 <= j < |segments| && ShowSegments(segments)[j] == part;
        SegmentIsSimple(segments[j]);
      }
    }
    TemplateMatchesTheLanguage(pattern, request);
  }

  // ----- slashes after an embedded operator

  lemma {:induction false} OperatorFreeSegments(segments: seq<string>, parts: seq<string>)
    requires MATCH_ONE_TEMPLATE !in segments && MATCH_ANY_TEMPLATE !in segments
    requires SegmentsMatch(segments, parts)
    ensures parts == segments
  {
    if segments != [] {
      assert segments[0] in segments;
      OperatorFreeSegments(segments[1..], parts[1..]);
      assert parts == [parts[0]] + parts[1..];
    }
  }

  /** A pattern without standalone operators matches as a template only its own text. */
  lemma OperatorFreeTemplate(pattern: string, request: string)
    requires MATCH_ONE_TEMPLATE !in Split(pattern, '/') && MATCH_ANY_TEMPLATE !in Split(pattern, '/')
    requires TemplateMatches(pattern, request)
    ensures request == pattern
  {
    OperatorFreeSegments(Split(pattern, '/'), Split(request, '/'));
    JoinSplit(pattern, '/');
    JoinSplit(request, '/');
  }

  lemma EmbeddedAnyIsOperatorFree(form: PathForm)
    requires WellFormed(form) && form.Template? && form.segments[|form.segments| - 1].PrefixAny?
    ensures MATCH_ONE_TEMPLATE !in Split(Show(form), '/') && MATCH_ANY_TEMPLATE !in Split(Show(form), '/')
  {
    var segments := form.segments;
    TemplateParts(form);
    forall i | 0 <= i < |segments|
      ensures ShowSegment(segments[i]) != MATCH_ONE_TEMPLATE && ShowSegment(segments[i]) != MATCH_ANY_TEMPLATE
    {
      assert !IsPchar('{');
      if segments[i].PrefixAny? {
        EmbeddedAnyIsNotIstioSegment(segments[i].prefix);
      } else {
        assert segments[i].Lit?;
        assert segments[i].text[0] in segments[i].text;
      }
    }
  }

  lemma SlashedAnyLanguage(text: string, tail: string)
    requires IsPlainText(text) && IsPlainText(tail)
    ensures InLanguage(text + MATCH_ANY_TEMPLATE + tail, text + tail)
  {
    assert !IsPchar('*') && !IsPchar('{') && !IsPchar('}');
    TokenizePlain(text, MATCH_ANY_TEMPLATE + tail);
    assert text + MATCH_ANY_TEMPLATE + tail == text + (MATCH_ANY_TEMPLATE + tail);
    assert (MATCH_ANY_TEMPLATE + tail)[4..] == tail;
    TokenizeLiteralPath(tail);
    LiteralLanguage(tail, tail);
    MatchesAnyText(Literals(tail), tail);
    assert tail[0..] == tail;
    MatchesLiterals(text, [AnyText] + Literals(tail), text + tail);
    assert (text + tail)[|text|..] == tail;
  }

  /** A request of the path's language that Istio does not match. */
  lemma SlashAfterEmbeddedAnyLosesRequests(form: PathForm, head: string, last: Segment) returns (request: string)
    requires WellFormed(form) && form.Template? && form.trail > 0
    requires last == form.segments[|form.segments| - 1] && last.PrefixAny? && IsPlainText(head + last.prefix)
    requires Show(form) == head + ShowSegment(last) + Repeat('/', form.trail)
    ensures InLanguage(Show(form), request) && !IstioPathMatches(Show(form), request)
  {
    var text, tail := head + last.prefix, Repeat('/', form.trail);
    request := text + tail;
    assert Show(form) == text + MATCH_ANY_TEMPLATE + tail;
    SlashedAnyLanguage(text, tail);
    TemplateHasOperator(form, |form.segments| - 1);
    EmbeddedAnyIsOperatorFree(form);
    assert |Show(form)| == |request| + 4;
    if TemplateMatches(Show(form), request) {
      OperatorFreeTemplate(Show(form), request);
    }
  }

  // ----- the language of the rewritten path

  lemma EmbeddedAnyPreservesLanguage(path: string, text: string, request: string)
    requires IsPlainText(text) && HasPrefix(text, "/") && path == text + MATCH_ANY_TEMPLATE
    ensures IstioPathMatches(text + "*", request) <==> InLanguage(path, request)
  {
    EmbeddedAnyLanguage(text, request);
    PrefixPatternLanguage(text, request);
  }

  lemma EmbeddedAnyText(head: string, prefix: string)
    requires HasPrefix(head, "/")
    ensures HasPrefix(head + prefix, "/")
    ensures head + ShowSegment(PrefixAny(prefix)) + Repeat('/', 0) == (head + prefix) + MATCH_ANY_TEMPLATE
  {}

  lemma TemplatePreservesLanguage(form: PathForm, request: string)
    requires WellFormed(form) && form.Template? && !SlashAfterEmbeddedAny(Show(form))
    ensures IstioPathMatches(TransformPathForIstio(Show(form)), request) <==> InLanguage(Show(form), request)
  {
    var head, last := TemplateEnd(form);
    TransformEnd(Show(form), head, last, form.trail);
    SlashAfterEnd(Show(form), head, last, form.trail);
    if last.PrefixAny? {
      EmbeddedAnyText(head, last.prefix);
      EmbeddedAnyPreservesLanguage(Show(form), head + last.prefix, request);
    } else {
      TemplatePatternLanguage(form, request);
    }
  }

  /** The rewrite preserves the language of a validated path without slashes after `prefix{**}`. */
  lemma RewritePreservesLanguage(path: string, request: string)
    requires IsValidPath(path) && !SlashAfterEmbeddedAny(path)
    ensures IstioPathMatches(TransformPathForIstio(path), request) <==> InLanguage(path, request)
  {
    var form := FormOfValidPath(path);
    match form
    case Plain(text) =>
      assert text + "" == text;
      PlainTextEnd(text, "");
      PlainPatternLanguage(text, request);
    case LegacyStar(prefix) =>
      PlainTextEnd(prefix, "*");
      PrefixPatternLanguage(prefix, request);
    case Template(_, _, _) => TemplatePreservesLanguage(form, request);
  }

  /** Exactly which validated paths keep their language. */
  lemma RewritePreservesLanguageIffNoSlashFollows(path: string)
    requires IsValidPath(path)
    ensures (forall request :: IstioPathMatches(TransformPathForIstio(path), request) <==> InLanguage(path, request))
      <==> !SlashAfterEmbeddedAny(path)
  {
    if SlashAfterEmbeddedAny(path) {
      var form := FormOfValidPath(path);
      match form
      case Plain(text) =>
        assert text + "" == text;
        PlainTextEnd(text, "");
      case LegacyStar(prefix) => PlainTextEnd(prefix, "*");
      case Template(_, _, _) =>
        var head, last := TemplateEnd(form);
        TransformEnd(Show(form), head, last, form.trail);
        SlashAfterEnd(Show(form), head, last, form.trail);
        var request := SlashAfterEmbeddedAnyLosesRequests(form, head, last);
    } else {
      forall request
        ensures IstioPathMatches(TransformPathForIstio(path), request) <==> InLanguage(path, request)
      {
        RewritePreservesLanguage(path, request);
      }
    }
  }

  /** Validated paths start with a slash, and so does everything they match. */
  lemma ValidPathsMatchSlashOnly(path: string, request: string)
    requires IsValidPath(path) && InLanguage(path, request)
    ensures HasPrefix(request, "/")
  {
    assert path[0] == '/';
    assert Tokenize(path)[0] == Literal('/');
    assert Tokenize(path) == [Literal('/')] + Tokenize(path)[1..];
    MatchesLiteral('/', Tokenize(path)[1..], request);
  }
}
