/** The path validator: classification, the stateful template scan, and the proof that it
    accepts exactly the grammar. */
module PathValidation {
  import opened GoStrings
  import opened PathLanguage
  import opened PathGrammar
  import opened Wrappers

  datatype PathKind = PlainPath | TemplatePath | LegacyStarPath

  datatype PathError =
    | MissingLeadingSlash
    | StarMisplaced
    | BracketsBeyondTemplate
    | MatchAnyNotLast
    | InvalidLiteral(segment: string)

  // ----- classification

  /** The last curly bracket before position `i` is an opening one. */
  predicate InsideBrackets(path: string, i: nat)
    requires i <= |path|
  {
    i > 0 && (path[i - 1] == '{' || (path[i - 1] != '}' && InsideBrackets(path, i - 1)))
  }

  predicate HasRawAsterisk(path: string) {
    exists i | 0 <= i < |path| :: path[i] == '*' && !InsideBrackets(path, i)
  }

  method HasRawAsteriskOutsideCurlyBrackets(path: string) returns (found: bool)
    ensures found <==> HasRawAsterisk(path)
  {
    var inInsideBracket := false;
    for i := 0 to |path|
      invariant inInsideBracket == InsideBrackets(path, i)
      invariant forall j | 0 <= j < i :: path[j] == '*' ==> InsideBrackets(path, j)
    {
      if path[i] == '{' {
        inInsideBracket := true;
      } else if path[i] == '}' {
        inInsideBracket := false;
      } else if path[i] == '*' {
        if !inInsideBracket {
          return true;
        }
      }
    }
    return false;
  }

  function ClassifyPath(path: string): Result<PathKind, PathError> {
    var hasCurlyBrackets := ContainsAny(path, "{}");
    if HasRawAsterisk(path) then
      if hasCurlyBrackets then Err(BracketsBeyondTemplate)
      else if Count(path, '*') > 1 || (path != "*" && !HasSuffix(path, "*")) then Err(StarMisplaced)
      else Ok(LegacyStarPath)
    else if hasCurlyBrackets then Ok(TemplatePath)
    else Ok(PlainPath)
  }

  // ----- segments

  function ToPathSegments(path: string): seq<string> {
    var trimmed := Trim(path, '/');
    if trimmed == "" then [] else Split(trimmed, '/')
  }

  /** The first segment that is neither empty nor a literal. */
  function FirstInvalidLiteral(segments: seq<string>): Option<PathError> {
    if segments == [] then None
    else if segments[0] != "" && !IsLiteral(segments[0]) then Some(InvalidLiteral(segments[0]))
    else FirstInvalidLiteral(segments[1..])
  }

  method ValidatePlainPathLiterals(path: string) returns (error: Option<PathError>)
    ensures error == FirstInvalidLiteral(ToPathSegments(path))
  {
    var segments := ToPathSegments(path);
    for i := 0 to |segments|
      invariant FirstInvalidLiteral(segments) == FirstInvalidLiteral(segments[i..])
    {
      if segments[i] != "" {
        if !IsLiteral(segments[i]) {
          return Some(InvalidLiteral(segments[i]));
        }
      }
    }
    return None;
  }

  // ----- the template scan

  /** What has been seen so far: `{*}`, and `{**}` standalone or as a suffix. */
  datatype Seen = Seen(matchOne: bool, matchMulti: bool)

  function ScanSegment(segment: string, isLast: bool, seen: Seen): Result<Seen, PathError> {
    if segment == MATCH_ONE_TEMPLATE then
      if seen.matchMulti then Err(MatchAnyNotLast) else Ok(seen.(matchOne := true))
    else if segment == MATCH_ANY_TEMPLATE then
      if seen.matchMulti then Err(MatchAnyNotLast) else Ok(seen.(matchMulti := true))
    else if HasSuffix(segment, MATCH_ANY_TEMPLATE) then
      var prefix := TrimSuffix(segment, MATCH_ANY_TEMPLATE);
      if ContainsAny(prefix, "{}") then Err(BracketsBeyondTemplate)
      else if !IsLiteral(prefix) then Err(InvalidLiteral(segment))
      else if !isLast then Err(MatchAnyNotLast)
      else if seen.matchMulti || seen.matchOne then Err(MatchAnyNotLast)
      else Ok(seen.(matchMulti := true))
    else if ContainsAny(segment, "{}") then Err(BracketsBeyondTemplate)
    else if !IsLiteral(segment) then Err(InvalidLiteral(segment))
    else Ok(seen)
  }

  function ScanSegments(segments: seq<string>, seen: Seen): Option<PathError> {
    if segments == [] then None
    else match ScanSegment(segments[0], |segments| == 1, seen)
      case Err(error) => Some(error)
      case Ok(next) => ScanSegments(segments[1..], next)
  }

  /** The mutable scan state that is threaded through the segments. */
  class TemplateState {
    var seenMatchOne: bool
    var seenMatchMulti: bool

    function Value(): Seen
      reads this
    {
      Seen(seenMatchOne, seenMatchMulti)
    }

    constructor ()
      ensures Value() == Seen(false, false)
    {
      seenMatchOne, seenMatchMulti := false, false;
    }

    method ValidateTemplatePathSegment(segment: string, isLastSegment: bool) returns (error: Option<PathError>)
      modifies this
      ensures match ScanSegment(segment, isLastSegment, old(Value()))
              case Ok(next) => error == None && Value() == next
              case Err(e) => error == Some(e) && Value() == old(Value())
    {
      error := None;
      if segment == MATCH_ONE_TEMPLATE {
        if seenMatchMulti {
          return Some(MatchAnyNotLast);
        }
        seenMatchOne := true;
      } else if segment == MATCH_ANY_TEMPLATE {
        if seenMatchMulti {
          return Some(MatchAnyNotLast);
        }
        seenMatchMulti := true;
      } else if HasSuffix(segment, MATCH_ANY_TEMPLATE) {
        var prefix := TrimSuffix(segment, MATCH_ANY_TEMPLATE);
        if ContainsAny(prefix, "{}") {
          return Some(BracketsBeyondTemplate);
        }
        if !IsLiteral(prefix) {
          return Some(InvalidLiteral(segment));
        }
        if !isLastSegment {
          return Some(MatchAnyNotLast);
        }
        if seenMatchMulti || seenMatchOne {
          return Some(MatchAnyNotLast);
        }
        seenMatchMulti := true;
      } else if ContainsAny(segment, "{}") {
        return Some(BracketsBeyondTemplate);
      } else if !IsLiteral(segment) {
        return Some(InvalidLiteral(segment));
      }
    }
  }

  method ValidateTemplatePath(path: string) returns (error: Option<PathError>)
    ensures error == ScanSegments(ToPathSegments(path), Seen(false, false))
  {
    var segments := ToPathSegments(path);
    var state := new TemplateState();
    for i := 0 to |segments|
      invariant ScanSegments(segments, Seen(false, false)) == ScanSegments(segments[i..], state.Value())
    {
      error := state.ValidateTemplatePathSegment(segments[i], i == |segments| - 1);
      if error.Some? {
        return;
      }
      assert segments[i..][1..] == segments[i + 1..];
    }
    error := None;
  }

  // ----- whole paths

  function PathVerdict(path: string): Option<PathError> {
    if !HasPrefix(path, "/") then Some(MissingLeadingSlash)
    else match ClassifyPath(path)
      case Err(error) => Some(error)
      case Ok(LegacyStarPath) => FirstInvalidLiteral(ToPathSegments(TrimSuffix(path, "*")))
      case Ok(TemplatePath) => ScanSegments(ToPathSegments(path), Seen(false, false))
      case Ok(PlainPath) => FirstInvalidLiteral(ToPathSegments(path))
  }

  predicate IsValidPath(path: string) {
    PathVerdict(path) == None
  }

  method ValidatePath(path: string) returns (error: Option<PathError>)
    ensures error == PathVerdict(path)
  {
    if !HasPrefix(path, "/") {
      return Some(MissingLeadingSlash);
    }
    var kind := ClassifyPath(path);
    if kind.Err? {
      return Some(kind.error);
    }
    match kind.value {
      case LegacyStarPath => error := ValidatePlainPathLiterals(TrimSuffix(path, "*"));
      case TemplatePath => error := ValidateTemplatePath(path);
      case PlainPath => error := ValidatePlainPathLiterals(path);
    }
  }

  /** Reports the error of the first invalid path. */
  method ValidatePaths(paths: seq<string>) returns (error: Option<PathError>)
    ensures error == None <==> forall p | p in paths :: IsValidPath(p)
    ensures error.Some? ==>
      exists i | 0 <= i < |paths| ::
        && PathVerdict(paths[i]) == error
        && forall j | 0 <= j < i :: IsValidPath(paths[j])
  {
    for i := 0 to |paths|
      invariant forall j | 0 <= j < i :: IsValidPath(paths[j])
    {
      error := ValidatePath(paths[i]);
      if error.Some? {
        assert paths[i] in paths;
        return;
      }
    }
    error := None;
  }

  // ----- facts about classification

  lemma {:induction false} NoOpenBracket(path: string, i: nat)
    requires i <= |path| && '{' !in path
    ensures !InsideBrackets(path, i)
  {
    if i > 0 {
      NoOpenBracket(path, i - 1);
    }
  }

  lemma RawAsteriskWithoutBrackets(path: string)
    requires !ContainsAny(path, "{}")
    ensures HasRawAsterisk(path) <==> '*' in path
  {
    if '*' in path {
      var i :| 0 <= i < |path| && path[i] == '*';
      assert '{' in "{}";
      NoOpenBracket(path, i);
    }
  }

  /** The brackets that matter at a position are those of the text before it. */
  lemma {:induction false} InsideBracketsAfter(head: string, tail: string, i: nat)
    requires i <= |tail|
    requires !InsideBrackets(head, |head|)
    ensures InsideBrackets(head + tail, |head| + i) == InsideBrackets(tail, i)
    decreases i
  {
    if i == 0 {
      InsideBracketsPrefix(head, tail, |head|);
    } else {
      InsideBracketsAfter(head, tail, i - 1);
      assert (head + tail)[|head| + i - 1] == tail[i - 1];
    }
  }

  lemma {:induction false} InsideBracketsPrefix(head: string, tail: string, i: nat)
    requires i <= |head|
    ensures InsideBrackets(head + tail, i) == InsideBrackets(head, i)
    decreases i
  {
    if i > 0 {
      InsideBracketsPrefix(head, tail, i - 1);
    }
  }

  lemma NoRawAsteriskConcat(head: string, tail: string)
    requires !HasRawAsterisk(head) && !InsideBrackets(head, |head|) && !HasRawAsterisk(tail)
    ensures !HasRawAsterisk(head + tail)
  {
    var s := head + tail;
    forall i | 0 <= i < |s| && s[i] == '*' ensures InsideBrackets(s, i) {
      if i < |head| {
        InsideBracketsPrefix(head, tail, i);
      } else {
        InsideBracketsAfter(head, tail, i - |head|);
        assert s[i] == tail[i - |head|];
      }
    }
  }

  lemma {:induction false} TemplateTextHasNoRawAsterisk(s: string, afterOperator: bool)
    requires IsTemplateText(s, afterOperator)
    ensures !HasRawAsterisk(s)
    decreases |s|
  {
    if s != "" {
      var n := if HasPrefix(s, MATCH_ANY_TEMPLATE) then 4 else if HasPrefix(s, MATCH_ONE_TEMPLATE) then 3 else 1;
      var head, tail := s[..n], s[n..];
      TemplateTextHasNoRawAsterisk(tail, n != 1);
      assert s == head + tail;
      if n == 4 {
        assert head == ['{', '*', '*', '}'];
        assert InsideBrackets(head, 1) && InsideBrackets(head, 2);
      } else if n == 3 {
        assert head == ['{', '*', '}'];
        assert InsideBrackets(head, 1);
      } else {
        assert head == [s[0]];
      }
      NoRawAsteriskConcat(head, tail);
    }
  }

  // ----- plain paths

  lemma {:induction false} LiteralsOfPlainText(segments: seq<string>)
    ensures FirstInvalidLiteral(segments) == None <==> forall p, c | p in segments && c in p :: IsPchar(c)
  {
    if segments != [] {
      LiteralsOfPlainText(segments[1..]);
      assert segments == [segments[0]] + segments[1..];
      assert segments[0] in segments;
    }
  }

  lemma {:induction false} SplitCharacters(s: string, sep: char, c: char)
    requires c != sep
    ensures c in s <==> exists p :: p in Split(s, sep) && c in p
  {
    JoinSplit(s, sep);
    JoinCharacters(Split(s, sep), [sep], c);
  }

  lemma {:induction false} JoinCharacters(parts: seq<string>, sep: string, c: char)
    requires c !in sep
    ensures c in Join(parts, sep) <==> exists p :: p in parts && c in p
  {
    if parts != [] {
      var head, rest := parts[0], parts[1..];
      JoinCharacters(rest, sep, c);
      assert parts == [head] + rest;
      assert |parts| == 1 ==> Join(rest, sep) == "";
      assert c in Join(parts, sep) <==> c in head || c in Join(rest, sep);
      assert head in parts;
      assert forall p | p in rest :: p in parts;
      assert forall p | p in parts :: p == head || p in rest;
    }
  }

  lemma TrimCharacters(s: string, sep: char, c: char)
    requires c != sep
    ensures c in s <==> c in Trim(s, sep)
  {
    var n := TrimLeftShape(s, sep);
    var m := TrimRightShape(TrimLeft(s, sep), sep);
    assert s == Repeat(sep, n) + (Trim(s, sep) + Repeat(sep, m));
    assert c !in Repeat(sep, n) && c !in Repeat(sep, m);
  }

  /** The characters of a path's segments are the path's characters other than the slash. */
  lemma SegmentCharacters(path: string, c: char)
    requires c != '/'
    ensures c in path <==> exists p :: p in ToPathSegments(path) && c in p
  {
    TrimCharacters(path, '/', c);
    if Trim(path, '/') != "" {
      SplitCharacters(Trim(path, '/'), '/', c);
    }
  }

  lemma SegmentsHaveNoSlash(path: string)
    ensures forall p | p in ToPathSegments(path) :: '/' !in p
  {
    JoinSplit(Trim(path, '/'), '/');
  }

  lemma PlainLiterals(path: string)
    ensures FirstInvalidLiteral(ToPathSegments(path)) == None <==> IsPlainText(path)
  {
    var segments := ToPathSegments(path);
    LiteralsOfPlainText(segments);
    SegmentsHaveNoSlash(path);
    if IsPlainText(path) {
      forall p, c | p in segments && c in p ensures IsPchar(c) {
        SegmentCharacters(path, c);
      }
    }
    if forall p, c | p in segments && c in p :: IsPchar(c) {
      forall c | c in path ensures c == '/' || IsPchar(c) {
        if c != '/' {
          SegmentCharacters(path, c);
        }
      }
    }
  }

  // ----- templates

  /** The segment form of a segment text. */
  function ParseSegment(text: string): (segment: Segment)
    ensures ShowSegment(segment) == text
  {
    if text == MATCH_ONE_TEMPLATE then One
    else if text == MATCH_ANY_TEMPLATE then Any
    else if HasSuffix(text, MATCH_ANY_TEMPLATE) then PrefixAny(TrimSuffix(text, MATCH_ANY_TEMPLATE))
    else Lit(text)
  }

  lemma ParseShow(segment: Segment)
    requires WellFormedSegment(segment)
    ensures ParseSegment(ShowSegment(segment)) == segment
  {
    match segment
    case Lit(text) =>
      assert !IsPchar('}');
      SuffixCharacter(text, MATCH_ANY_TEMPLATE, '}');
    case PrefixAny(prefix) =>
      var text := prefix + MATCH_ANY_TEMPLATE;
      assert text[|text| - 4..] == MATCH_ANY_TEMPLATE && text[..|text| - 4] == prefix;
      assert prefix[0] in prefix;
      assert text[0] == prefix[0];
    case _ =>
  }

  function ParseSegments(texts: seq<string>): (segments: seq<Segment>)
    ensures |segments| == |texts|
    ensures forall i | 0 <= i < |texts| :: segments[i] == ParseSegment(texts[i])
  {
    seq(|texts|, i requires 0 <= i < |texts| => ParseSegment(texts[i]))
  }

  /** The scan of one segment, on its form. */
  lemma ScanSegmentForm(text: string, isLast: bool, seen: Seen)
    ensures
      var segment := ParseSegment(text);
      var accepted := ScanSegment(text, isLast, seen);
      && (accepted.Ok? <==>
          && WellFormedSegment(segment)
          && (seen.matchMulti ==> segment.Lit?)
          && (segment.PrefixAny? ==> isLast && !seen.matchOne))
      && (accepted.Ok? ==>
          accepted.value == Seen(seen.matchOne || segment.One?, seen.matchMulti || segment.Any? || segment.PrefixAny?))
  {
    assert !IsPchar('{') && !IsPchar('}');
    var segment := ParseSegment(text);
    if segment.Lit? && ContainsAny(text, "{}") {
      var c :| c in text && c in "{}";
      assert !IsLiteral(text);
    }
    if segment.PrefixAny? && ContainsAny(segment.prefix, "{}") {
      var c :| c in segment.prefix && c in "{}";
      assert !IsLiteral(segment.prefix);
    }
  }

  /** What the rest of the segments must satisfy once `seen` has been seen. */
  predicate Continues(segments: seq<Segment>, seen: Seen) {
    && (forall i | 0 <= i < |segments| :: WellFormedSegment(segments[i]))
    && WellOrdered(segments)
    && (seen.matchMulti ==> forall i | 0 <= i < |segments| :: segments[i].Lit?)
    && (seen.matchOne ==> forall i | 0 <= i < |segments| :: !segments[i].PrefixAny?)
  }

  lemma WellOrderedStep(segment: Segment, rest: seq<Segment>)
    ensures WellOrdered([segment] + rest) <==>
      && WellOrdered(rest)
      && (segment.Any? ==> forall i | 0 <= i < |rest| :: rest[i].Lit?)
      && (segment.PrefixAny? ==> rest == [])
      && (!segment.Lit? ==> forall i | 0 <= i < |rest| :: !rest[i].PrefixAny?)
  {
    var all := [segment] + rest;
    assert all[0] == segment;
    assert forall i | 0 <= i < |rest| :: rest[i] == all[i + 1];
    assert forall i | 0 < i < |all| :: all[i] == rest[i - 1];
  }

  lemma ContinuesStep(segment: Segment, rest: seq<Segment>, seen: Seen)
    ensures Continues([segment] + rest, seen) <==>
      && WellFormedSegment(segment)
      && (seen.matchMulti ==> segment.Lit?)
      && (segment.PrefixAny? ==> rest == [] && !seen.matchOne)
      && Continues(rest, Seen(seen.matchOne || segment.One?, seen.matchMulti || segment.Any? || segment.PrefixAny?))
  {
    var all := [segment] + rest;
    WellOrderedStep(segment, rest);
    assert all[0] == segment;
    assert forall i | 0 <= i < |rest| :: rest[i] == all[i + 1];
    assert forall i | 0 < i < |all| :: all[i] == rest[i - 1];
  }

  lemma {:induction false} ScanSegmentsForm(texts: seq<string>, seen: Seen)
    ensures ScanSegments(texts, seen) == None <==> Continues(ParseSegments(texts), seen)
  {
    if texts != [] {
      ScanSegmentForm(texts[0], |texts| == 1, seen);
      var segments := ParseSegments(texts);
      assert segments == [segments[0]] + ParseSegments(texts[1..]);
      ContinuesStep(segments[0], ParseSegments(texts[1..]), seen);
      if ScanSegment(texts[0], |texts| == 1, seen).Ok? {
        ScanSegmentsForm(texts[1..], ScanSegment(texts[0], |texts| == 1, seen).value);
      }
    }
  }

  // ----- the validator accepts exactly the grammar

  lemma LiteralEnds(text: string)
    requires IsLiteral(text)
    ensures text[0] != '/' && text[|text| - 1] != '/' && '/' !in text
  {
    assert text[0] in text && text[|text| - 1] in text;
    assert !IsPchar('/');
  }

  lemma SegmentText(segment: Segment)
    requires WellFormedSegment(segment)
    ensures var text := ShowSegment(segment);
      text != "" && '/' !in text && text[0] != '/' && text[|text| - 1] != '/'
  {
    match segment
    case Lit(text) => LiteralEnds(text);
    case PrefixAny(prefix) =>
      LiteralEnds(prefix);
      assert ShowSegment(segment)[0] == prefix[0];
      var text := ShowSegment(segment);
      assert text[|text| - 1] == '}';
    case _ =>
  }

  lemma {:induction false} JoinEnds(parts: seq<string>)
    requires parts != []
    requires forall p | p in parts :: p != "" && p[0] != '/' && p[|p| - 1] != '/'
    ensures var s := Join(parts, "/"); s != "" && s[0] != '/' && s[|s| - 1] != '/'
  {
    assert parts[0] in parts;
    if |parts| > 1 {
      JoinEnds(parts[1..]);
    }
  }

  /** Splitting a template into segments undoes showing it. */
  lemma TrimSlashes(lead: nat, core: string, trail: nat)
    requires core != "" && core[0] != '/' && core[|core| - 1] != '/'
    ensures Trim(Repeat('/', lead) + core + Repeat('/', trail), '/') == core
  {
    var rest := core + Repeat('/', trail);
    ConcatAssociates(Repeat('/', lead), core, Repeat('/', trail));
    assert rest[0] == core[0];
    TrimLeftRun(lead, rest, '/');
    TrimRightRun(core, trail, '/');
  }

  lemma SegmentTexts(segments: seq<Segment>)
    requires forall i | 0 <= i < |segments| :: WellFormedSegment(segments[i])
    ensures forall p | p in ShowSegments(segments) ::
      p != "" && '/' !in p && p[0] != '/' && p[|p| - 1] != '/'
  {
    var texts := ShowSegments(segments);
    forall p | p in texts ensures p != "" && '/' !in p && p[0] != '/' && p[|p| - 1] != '/' {
      var i :| 0 <= i < |texts| && texts[i] == p;
      SegmentText(segments[i]);
    }
  }

  lemma TemplateSegments(form: PathForm)
    requires WellFormed(form) && form.Template?
    ensures ToPathSegments(Show(form)) == ShowSegments(form.segments)
  {
    var texts := ShowSegments(form.segments);
    SegmentTexts(form.segments);
    JoinEnds(texts);
    TrimSlashes(form.lead, Join(texts, "/"), form.trail);
    SplitJoin(texts, '/');
  }

  lemma ParseShowSegments(segments: seq<Segment>)
    requires forall i | 0 <= i < |segments| :: WellFormedSegment(segments[i])
    ensures ParseSegments(ShowSegments(segments)) == segments
  {
    forall i | 0 <= i < |segments| ensures ParseSegment(ShowSegments(segments)[i]) == segments[i] {
      ParseShow(segments[i]);
    }
  }

  lemma BracketsInShow(form: PathForm)
    requires WellFormed(form) && form.Template?
    ensures '{' in Show(form)
  {
    var Template(lead, segments, trail) := form;
    var i :| 0 <= i < |segments| && !segments[i].Lit?;
    var texts := ShowSegments(segments);
    assert '{' in texts[i] && texts[i] in texts;
    JoinCharacters(texts, "/", '{');
  }

  lemma TemplateAccepted(form: PathForm)
    requires WellFormed(form) && form.Template?
    ensures IsValidPath(Show(form))
  {
    var path := Show(form);
    TemplateFormText(form);
    TemplateTextHasNoRawAsterisk(path, false);
    BracketsInShow(form);
    assert '{' in "{}";
    TemplateSegments(form);
    ParseShowSegments(form.segments);
    ScanSegmentsForm(ShowSegments(form.segments), Seen(false, false));
    assert path[0] == '/';
  }

  lemma LegacyStarAccepted(prefix: string)
    requires WellFormed(LegacyStar(prefix))
    ensures IsValidPath(prefix + "*")
  {
    var path := prefix + "*";
    assert '*' !in prefix by { assert !IsPchar('*'); }
    forall c | c in path ensures c !in "{}" {
      assert !IsPchar('{') && !IsPchar('}');
    }
    RawAsteriskWithoutBrackets(path);
    assert path[|path| - 1] == '*';
    CountConcat(prefix, "*", '*');
    CountAbsent(prefix, '*');
    assert TrimSuffix(path, "*") == prefix;
    PlainLiterals(prefix);
  }

  lemma {:induction false} CountConcat(a: string, b: string, c: char)
    ensures Count(a + b, c) == Count(a, c) + Count(b, c)
  {
    if a == "" {
      assert a + b == b;
    } else {
      assert (a + b)[1..] == a[1..] + b;
      CountConcat(a[1..], b, c);
    }
  }

  lemma {:induction false} CountAbsent(a: string, c: char)
    ensures Count(a, c) == 0 <==> c !in a
  {
    if a != "" {
      CountAbsent(a[1..], c);
      assert a == [a[0]] + a[1..];
    }
  }

  lemma PlainAccepted(path: string)
    requires WellFormed(Plain(path))
    ensures IsValidPath(path)
  {
    forall c | c in path ensures c !in "{}" && c != '*' {
      assert !IsPchar('{') && !IsPchar('}') && !IsPchar('*');
    }
    RawAsteriskWithoutBrackets(path);
    PlainLiterals(path);
  }

  /** A form of a path that the validator accepts. */
  lemma FormOfValidPath(path: string) returns (form: PathForm)
    requires IsValidPath(path)
    ensures WellFormed(form) && Show(form) == path
  {
    match ClassifyPath(path).value
    case PlainPath =>
      PlainLiterals(path);
      form := Plain(path);
    case LegacyStarPath =>
      form := LegacyStarOf(path);
    case TemplatePath =>
      form := TemplateOf(path);
  }

  lemma LegacyStarOf(path: string) returns (form: PathForm)
    requires IsValidPath(path) && ClassifyPath(path) == Ok(LegacyStarPath)
    ensures WellFormed(form) && Show(form) == path
  {
    var prefix := TrimSuffix(path, "*");
    assert path != "*" by { assert path[0] == '/'; }
    assert path == prefix + "*";
    PlainLiterals(prefix);
    assert prefix != "" by { assert path[0] == '/'; }
    form := LegacyStar(prefix);
  }

  lemma TrimShape(path: string) returns (lead: nat, trail: nat)
    ensures path == Repeat('/', lead) + Trim(path, '/') + Repeat('/', trail)
    ensures HasPrefix(path, "/") ==> lead >= 1
  {
    lead := TrimLeftShape(path, '/');
    trail := TrimRightShape(TrimLeft(path, '/'), '/');
  }

  lemma BracketIsInOperator(text: string, c: char)
    requires c in text && c in "{}" && WellFormedSegment(ParseSegment(text))
    ensures !ParseSegment(text).Lit?
  {
    assert !IsPchar('{') && !IsPchar('}');
  }

  lemma OperatorOf(path: string) returns (text: string)
    requires ContainsAny(path, "{}")
    requires forall t | t in ToPathSegments(path) :: WellFormedSegment(ParseSegment(t))
    ensures text in ToPathSegments(path) && !ParseSegment(text).Lit?
  {
    var c :| c in path && c in "{}";
    SegmentCharacters(path, c);
    text :| text in ToPathSegments(path) && c in text;
    BracketIsInOperator(text, c);
  }

  lemma TemplateOf(path: string) returns (form: PathForm)
    requires IsValidPath(path) && ClassifyPath(path) == Ok(TemplatePath)
    ensures WellFormed(form) && Show(form) == path
  {
    var texts := ToPathSegments(path);
    var segments := ParseSegments(texts);
    ScanSegmentsForm(texts, Seen(false, false));
    var t := OperatorOf(path);
    var i :| 0 <= i < |texts| && texts[i] == t;
    assert !segments[i].Lit?;
    var lead, trail := TrimShape(path);
    form := Template(lead, segments, trail);
    assert ShowSegments(segments) == texts;
    JoinSplit(Trim(path, '/'), '/');
  }

  /** The validator accepts a path if and only if the path is in the grammar. */
  lemma ValidatorAcceptsExactlyTheGrammar(path: string)
    ensures IsValidPath(path) <==> InGrammar(path)
  {
    if IsValidPath(path) {
      var form := FormOfValidPath(path);
    }
    if InGrammar(path) {
      var form :| WellFormed(form) && Show(form) == path;
      match form
      case Plain(text) => PlainAccepted(text);
      case LegacyStar(prefix) => LegacyStarAccepted(prefix);
      case Template(_, _, _) => TemplateAccepted(form);
    }
  }

  /** A path without operators is accepted if and only if it consists of slashes and listed characters. */
  lemma PlainPathCharacters(path: string)
    requires HasPrefix(path, "/") && forall c | c in path :: c !in "*{}"
    ensures IsValidPath(path) <==> forall c | c in path :: c == '/' || IsListed(c)
  {
    forall c: char ensures IsPchar(c) <==> IsListed(c) {
      LiteralCharacters(c);
    }
    assert forall c | c in path :: c !in "{}" && c != '*';
    RawAsteriskWithoutBrackets(path);
    PlainLiterals(path);
  }
}
