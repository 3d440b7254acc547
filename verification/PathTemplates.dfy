/** Path templates matched segment by segment, and their agreement with the character-wise path
    language. */
module PathTemplates {
  import opened GoStrings
  import opened PathLanguage

  /** `{*}` takes one non-empty segment, `{**}` one or more segments of any kind, and every other
      segment only itself. */
  ghost predicate SegmentsMatch(segments: seq<string>, parts: seq<string>) {
    if segments == [] then parts == []
    else if segments[0] == MATCH_ONE_TEMPLATE then
      parts != [] && parts[0] != "" && SegmentsMatch(segments[1..], parts[1..])
    else if segments[0] == MATCH_ANY_TEMPLATE then
      exists k | 1 <= k <= |parts| :: SegmentsMatch(segments[1..], parts[k..])
    else parts != [] && parts[0] == segments[0] && SegmentsMatch(segments[1..], parts[1..])
  }

  ghost predicate TemplateMatches(pattern: string, path: string) {
    SegmentsMatch(Split(pattern, '/'), Split(path, '/'))
  }

  /** A standalone operator or a segment without operators. */
  predicate IsSimpleSegment(segment: string) {
    segment == MATCH_ONE_TEMPLATE || segment == MATCH_ANY_TEMPLATE
    || forall c | c in segment :: IsPlainChar(c) && c != '/'
  }

  function SegmentTokens(segment: string): seq<Token> {
    if segment == MATCH_ONE_TEMPLATE then [OneSegment]
    else if segment == MATCH_ANY_TEMPLATE then [AnyText]
    else Literals(segment)
  }

  lemma TokenizeSegment(segment: string, rest: string)
    requires IsSimpleSegment(segment)
    ensures Tokenize(segment + rest) == SegmentTokens(segment) + Tokenize(rest)
  {
    var s := segment + rest;
    if segment == MATCH_ONE_TEMPLATE {
      assert s[2] == '}' && s[3..] == rest;
    } else if segment == MATCH_ANY_TEMPLATE {
      assert s[4..] == rest;
    } else {
      TokenizePlain(segment, rest);
    }
  }

  lemma TokenizeSlash(rest: string)
    ensures Tokenize("/" + rest) == [Literal('/')] + Tokenize(rest)
  {
    TokenizePlain("/", rest);
    assert Literals("/") == [Literal('/')];
  }

  // ----- slashes and parts

  lemma SplitIsJoin(s: string, part: string)
    requires '/' !in part
    ensures Split(s, '/') == [part] <==> s == part
  {
    if s == part {
      SplitWithoutSeparator(part, '/');
    }
    JoinSplit(s, '/');
  }

  /** The head of a text up to its first slash is its first part. */
  lemma SplitHead(s: string, k: nat)
    requires k < |s| && s[k] == '/' && '/' !in s[..k]
    ensures Split(s, '/') == [s[..k]] + Split(s[k + 1..], '/')
  {
    assert s == s[..k] + ['/'] + s[k + 1..];
    SplitAtSeparator(s[..k], s[k + 1..], '/');
  }

  lemma {:induction false} FirstSlash(s: string) returns (k: nat)
    requires '/' in s
    ensures k < |s| && s[k] == '/' && '/' !in s[..k]
  {
    if s[0] == '/' {
      k := 0;
    } else {
      assert s == [s[0]] + s[1..];
      k := FirstSlash(s[1..]);
      k := k + 1;
      assert s[..k] == [s[0]] + s[1..][..k - 1];
    }
  }

  lemma SeveralPartsHaveSlash(s: string)
    requires |Split(s, '/')| > 1
    ensures '/' in s
  {
    if '/' !in s {
      SplitWithoutSeparator(s, '/');
    }
  }

  lemma PartsBehindSlash(s: string, k: nat) returns (j: nat)
    requires k < |s| && s[k] == '/'
    ensures 1 <= j < |Split(s, '/')| && Split(s, '/')[j..] == Split(s[k + 1..], '/')
  {
    assert s == s[..k] + ['/'] + s[k + 1..];
    SplitConcat(s[..k], '/', s[k + 1..]);
    j := |Split(s[..k], '/')|;
  }

  lemma {:induction false} SlashBeforeParts(s: string, j: nat) returns (k: nat)
    requires 1 <= j < |Split(s, '/')|
    ensures k < |s| && s[k] == '/' && Split(s, '/')[j..] == Split(s[k + 1..], '/')
    decreases |s|
  {
    SeveralPartsHaveSlash(s);
    var first := FirstSlash(s);
    SplitHead(s, first);
    var tail := s[first + 1..];
    if j == 1 {
      k := first;
    } else {
      var inner := SlashBeforeParts(tail, j - 1);
      k := first + 1 + inner;
      assert s[k + 1..] == tail[inner + 1..];
      assert Split(s, '/')[j..] == Split(tail, '/')[j - 1..];
    }
  }

  // ----- one segment of a template

  lemma LiteralSegment(segment: string, rest: seq<Token>, s: string)
    requires '/' !in segment
    ensures Matches(Literals(segment) + ([Literal('/')] + rest), s) <==>
      var parts := Split(s, '/');
      |parts| > 1 && parts[0] == segment && |s| > |segment| && Matches(rest, s[|segment| + 1..])
    ensures var parts := Split(s, '/');
      |parts| > 1 && parts[0] == segment ==> |s| > |segment| && parts[1..] == Split(s[|segment| + 1..], '/')
  {
    MatchesLiterals(segment, [Literal('/')] + rest, s);
    var parts := Split(s, '/');
    if segment <= s {
      MatchesLiteralAt('/', rest, s, |segment|);
      assert s[..|segment|] == segment;
      if |s| > |segment| && s[|segment|] == '/' {
        SplitHead(s, |segment|);
      }
    }
    if |parts| > 1 && parts[0] == segment {
      FirstPart(s);
    }
  }

  lemma ConsParts(part: string, others: seq<string>, parts: seq<string>)
    requires parts == [part] + others
    ensures parts[0] == part && parts[1..] == others
  {}

  /** A text with more than one part starts with its first part and a slash. */
  lemma FirstPart(s: string)
    requires |Split(s, '/')| > 1
    ensures var part := Split(s, '/')[0];
      |s| > |part| && s[..|part|] == part && s[|part|] == '/' && '/' !in part
      && Split(s, '/')[1..] == Split(s[|part| + 1..], '/')
  {
    SeveralPartsHaveSlash(s);
    var k := FirstSlash(s);
    SplitHead(s, k);
    ConsParts(s[..k], Split(s[k + 1..], '/'), Split(s, '/'));
  }

  /** The first part is a segment, and the tokens match what follows its slash. */
  ghost predicate FirstPartThen(rest: seq<Token>, s: string) {
    var parts := Split(s, '/');
    |parts| > 1 && parts[0] != "" && |s| > |parts[0]| && Matches(rest, s[|parts[0]| + 1..])
  }

  lemma OneSegmentIsFirstPart(rest: seq<Token>, s: string, k: nat)
    requires 1 <= k <= |s| && '/' !in s[..k] && Matches([Literal('/')] + rest, s[k..])
    ensures FirstPartThen(rest, s)
  {
    MatchesLiteralAt('/', rest, s, k);
    SplitHead(s, k);
    ConsParts(s[..k], Split(s[k + 1..], '/'), Split(s, '/'));
  }

  lemma OneSegmentStep(rest: seq<Token>, s: string)
    ensures Matches([OneSegment] + ([Literal('/')] + rest), s) <==> FirstPartThen(rest, s)
  {
    MatchesOneSegment([Literal('/')] + rest, s);
    if k :| 1 <= k <= |s| && '/' !in s[..k] && Matches([Literal('/')] + rest, s[k..]) {
      OneSegmentIsFirstPart(rest, s, k);
    }
    if FirstPartThen(rest, s) {
      FirstPart(s);
      MatchesLiteralAt('/', rest, s, |Split(s, '/')[0]|);
    }
  }

  lemma AnySegmentsStep(rest: seq<Token>, s: string)
    ensures Matches([AnyText] + ([Literal('/')] + rest), s) <==>
      exists k | 0 <= k < |s| :: s[k] == '/' && Matches(rest, s[k + 1..])
  {
    MatchesAnyText([Literal('/')] + rest, s);
    if k :| 0 <= k <= |s| && Matches([Literal('/')] + rest, s[k..]) {
      MatchesLiteralAt('/', rest, s, k);
    }
    if k :| 0 <= k < |s| && s[k] == '/' && Matches(rest, s[k + 1..]) {
      MatchesLiteralAt('/', rest, s, k);
    }
  }

  lemma LastSegment(segment: string, s: string)
    requires IsSimpleSegment(segment)
    ensures SegmentsMatch([segment], Split(s, '/')) <==> Matches(SegmentTokens(segment), s)
  {
    var parts := Split(s, '/');
    assert [segment][1..] == [];
    if segment == MATCH_ONE_TEMPLATE {
      MatchesOneSegment([], s);
      assert [OneSegment] + [] == [OneSegment];
      assert SegmentsMatch([segment], parts) <==> |parts| == 1 && parts[0] != "";
      JoinSplit(s, '/');
      if '/' !in s {
        SplitWithoutSeparator(s, '/');
        assert s[..|s|] == s;
      }
      if |parts| == 1 {
        assert parts[0] in parts;
      }
      if k :| 1 <= k <= |s| && '/' !in s[..k] && Matches([], s[k..]) {
        assert s[..k] == s;
      }
    } else if segment == MATCH_ANY_TEMPLATE {
      MatchesAnyText([], s);
      assert [AnyText] + [] == [AnyText];
      assert parts[|parts|..] == [] && s[|s|..] == "";
    } else {
      LiteralLanguage(segment, s);
      SplitIsJoin(s, segment);
    }
  }

  /** Other segments match the text behind a slash as the rest of the tokens does. */
  ghost predicate AgreeBehind(others: seq<string>, rest: seq<Token>, s: string, k: nat) {
    k < |s| && (SegmentsMatch(others, Split(s[k + 1..], '/')) <==> Matches(rest, s[k + 1..]))
  }

  lemma OneTemplateFirst(others: seq<string>, parts: seq<string>)
    ensures SegmentsMatch([MATCH_ONE_TEMPLATE] + others, parts)
      <==> parts != [] && parts[0] != "" && SegmentsMatch(others, parts[1..])
  {
    assert ([MATCH_ONE_TEMPLATE] + others)[1..] == others;
  }

  lemma FirstIsOneSegment(others: seq<string>, rest: seq<Token>, s: string)
    requires others != [] && forall k | 0 <= k < |s| :: AgreeBehind(others, rest, s, k)
    ensures SegmentsMatch([MATCH_ONE_TEMPLATE] + others, Split(s, '/'))
      <==> Matches([OneSegment] + ([Literal('/')] + rest), s)
  {
    var parts := Split(s, '/');
    OneTemplateFirst(others, parts);
    OneSegmentStep(rest, s);
    if |parts| > 1 {
      FirstPart(s);
      assert AgreeBehind(others, rest, s, |parts[0]|);
    } else {
      assert parts[1..] == [];
      assert !SegmentsMatch(others, []);
    }
  }

  lemma FirstIsAnySegments(others: seq<string>, rest: seq<Token>, s: string)
    requires others != [] && forall k | 0 <= k < |s| :: AgreeBehind(others, rest, s, k)
    ensures SegmentsMatch([MATCH_ANY_TEMPLATE] + others, Split(s, '/'))
      <==> Matches([AnyText] + ([Literal('/')] + rest), s)
  {
    var segments, parts := [MATCH_ANY_TEMPLATE] + others, Split(s, '/');
    assert segments[1..] == others;
    assert !SegmentsMatch(others, []);
    AnySegmentsStep(rest, s);
    if SegmentsMatch(segments, parts) {
      var j :| 1 <= j <= |parts| && SegmentsMatch(others, parts[j..]);
      assert parts[|parts|..] == [];
      var k := SlashBeforeParts(s, j);
      assert AgreeBehind(others, rest, s, k);
    }
    if k :| 0 <= k < |s| && s[k] == '/' && Matches(rest, s[k + 1..]) {
      assert AgreeBehind(others, rest, s, k);
      var j := PartsBehindSlash(s, k);
      assert SegmentsMatch(others, parts[j..]);
    }
  }

  lemma FirstIsLiteral(segment: string, others: seq<string>, rest: seq<Token>, s: string)
    requires '/' !in segment && segment != MATCH_ONE_TEMPLATE && segment != MATCH_ANY_TEMPLATE
    requires others != [] && forall k | 0 <= k < |s| :: AgreeBehind(others, rest, s, k)
    ensures SegmentsMatch([segment] + others, Split(s, '/'))
      <==> Matches(Literals(segment) + ([Literal('/')] + rest), s)
  {
    assert ([segment] + others)[1..] == others;
    assert !SegmentsMatch(others, []);
    LiteralSegment(segment, rest, s);
    if |s| > |segment| {
      assert AgreeBehind(others, rest, s, |segment|);
    }
  }

  lemma FirstSegment(segment: string, others: seq<string>, rest: seq<Token>, s: string)
    requires IsSimpleSegment(segment)
    requires others != [] && forall k | 0 <= k < |s| :: AgreeBehind(others, rest, s, k)
    ensures SegmentsMatch([segment] + others, Split(s, '/'))
      <==> Matches(SegmentTokens(segment) + ([Literal('/')] + rest), s)
  {
    if segment == MATCH_ONE_TEMPLATE {
      FirstIsOneSegment(others, rest, s);
    } else if segment == MATCH_ANY_TEMPLATE {
      FirstIsAnySegments(others, rest, s);
    } else {
      FirstIsLiteral(segment, others, rest, s);
    }
  }

  /** Segment by segment and character by character, a template of simple segments matches the same
      paths. */
  lemma {:induction false} SegmentsMatchTheLanguage(segments: seq<string>, s: string)
    requires segments != [] && forall segment | segment in segments :: IsSimpleSegment(segment)
    ensures SegmentsMatch(segments, Split(s, '/')) <==> InLanguage(Join(segments, "/"), s)
    decreases |segments|
  {
    var segment, others := segments[0], segments[1..];
    assert segment in segments;
    if others == [] {
      TokenizeSegment(segment, "");
      assert segment + "" == segment && SegmentTokens(segment) + [] == SegmentTokens(segment);
      assert segments == [segment];
      LastSegment(segment, s);
    } else {
      var joined := Join(others, "/");
      TokenizeSegment(segment, "/" + joined);
      TokenizeSlash(joined);
      assert Join(segments, "/") == segment + ("/" + joined);
      forall k | 0 <= k < |s| ensures AgreeBehind(others, Tokenize(joined), s, k) {
        SegmentsMatchTheLanguage(others, s[k + 1..]);
      }
      FirstSegment(segment, others, Tokenize(joined), s);
      assert segments == [segment] + others;
    }
  }

  /** A pattern whose segments are simple matches as a template exactly its language. */
  lemma TemplateMatchesTheLanguage(pattern: string, s: string)
    requires forall segment | segment in Split(pattern, '/') :: IsSimpleSegment(segment)
    ensures TemplateMatches(pattern, s) <==> InLanguage(pattern, s)
  {
    JoinSplit(pattern, '/');
    SegmentsMatchTheLanguage(Split(pattern, '/'), s);
  }
}
