/** A declarative grammar of the request paths an AuthPolicy may use. */
module PathGrammar {
  import opened GoStrings
  import opened PathLanguage

  /** pchar of Appendix A of RFC 3986 without `*`, which the path syntax reserves. */
  predicate IsPchar(c: char) {
    'a' <= c <= 'z' || 'A' <= c <= 'Z' || '0' <= c <= '9' || c in "-._~%!$&'()+,;:@="
  }

  lemma SmallLettersToM(c: char)
    ensures 'a' <= c <= 'm' <==> c in "abcdefghijklm"
  {
    if 'a' <= c <= 'm' { assert "abcdefghijklm"[c as int - 'a' as int] == c; }
  }

  lemma SmallLettersFromN(c: char)
    ensures 'n' <= c <= 'z' <==> c in "nopqrstuvwxyz"
  {
    if 'n' <= c <= 'z' { assert "nopqrstuvwxyz"[c as int - 'n' as int] == c; }
  }

  lemma CapitalsToM(c: char)
    ensures 'A' <= c <= 'M' <==> c in "ABCDEFGHIJKLM"
  {
    if 'A' <= c <= 'M' { assert "ABCDEFGHIJKLM"[c as int - 'A' as int] == c; }
  }

  lemma CapitalsFromN(c: char)
    ensures 'N' <= c <= 'Z' <==> c in "NOPQRSTUVWXYZ"
  {
    if 'N' <= c <= 'Z' { assert "NOPQRSTUVWXYZ"[c as int - 'N' as int] == c; }
  }

  lemma Digits(c: char)
    ensures '0' <= c <= '9' <==> c in "0123456789"
  {
    if '0' <= c <= '9' { assert "0123456789"[c as int - '0' as int] == c; }
  }

  lemma Marks(c: char)
    ensures c in "-._~%!$&'()+,;:@=" <==>
      || c == '-' || c == '.' || c == '_' || c == '~' || c == '%' || c == '!' || c == '$' || c == '&' || c == '\''
      || c == '(' || c == ')' || c == '+' || c == ',' || c == ';' || c == ':' || c == '@' || c == '='
  {}

  /** The characters of a literal, one by one. */
  predicate IsListed(c: char) {
    || c in "abcdefghijklm" || c in "nopqrstuvwxyz" || c in "ABCDEFGHIJKLM" || c in "NOPQRSTUVWXYZ"
    || c in "0123456789"
    || c == '-' || c == '.' || c == '_' || c == '~' || c == '%' || c == '!' || c == '$' || c == '&' || c == '\''
    || c == '(' || c == ')' || c == '+' || c == ',' || c == ';' || c == ':' || c == '@' || c == '='
  }

  lemma LiteralCharacters(c: char)
    ensures IsPchar(c) <==> IsListed(c)
  {
    SmallLettersToM(c);
    SmallLettersFromN(c);
    CapitalsToM(c);
    CapitalsFromN(c);
    Digits(c);
    Marks(c);
  }

  predicate IsLiteral(text: string) {
    text != "" && forall c | c in text :: IsPchar(c)
  }

  /** Text of a path without operators. */
  predicate IsPlainText(text: string) {
    forall c | c in text :: c == '/' || IsPchar(c)
  }

  datatype Segment = Lit(text: string) | One | Any | PrefixAny(prefix: string)

  datatype PathForm =
    | Plain(text: string)
    | LegacyStar(prefix: string)
    | Template(lead: nat, segments: seq<Segment>, trail: nat)

  function ShowSegment(segment: Segment): string {
    match segment
    case Lit(text) => text
    case One => "{*}"
    case Any => "{**}"
    case PrefixAny(prefix) => prefix + "{**}"
  }

  function ShowSegments(segments: seq<Segment>): (texts: seq<string>)
    ensures |texts| == |segments|
    ensures forall i | 0 <= i < |segments| :: texts[i] == ShowSegment(segments[i])
  {
    seq(|segments|, i requires 0 <= i < |segments| => ShowSegment(segments[i]))
  }

  function Show(form: PathForm): string {
    match form
    case Plain(text) => text
    case LegacyStar(prefix) => prefix + "*"
    case Template(lead, segments, trail) =>
      Repeat('/', lead) + Join(ShowSegments(segments), "/") + Repeat('/', trail)
  }

  predicate WellFormedSegment(segment: Segment) {
    match segment
    case Lit(text) => IsLiteral(text)
    case PrefixAny(prefix) => IsLiteral(prefix)
    case _ => true
  }

  /** `{**}` is the last operator, and `prefix{**}` the only one, in the last segment. */
  predicate WellOrdered(segments: seq<Segment>) {
    && (forall i, j | 0 <= i < j < |segments| :: segments[i].Any? ==> segments[j].Lit?)
    && (forall i | 0 <= i < |segments| :: segments[i].PrefixAny? ==> i == |segments| - 1)
    && (forall i, j | 0 <= i < j < |segments| :: segments[j].PrefixAny? ==> segments[i].Lit?)
  }

  predicate WellFormed(form: PathForm) {
    match form
    case Plain(text) => HasPrefix(text, "/") && IsPlainText(text)
    case LegacyStar(prefix) => HasPrefix(prefix, "/") && IsPlainText(prefix)
    case Template(lead, segments, trail) =>
      && lead >= 1
      && (forall i | 0 <= i < |segments| :: WellFormedSegment(segments[i]))
      && WellOrdered(segments)
      && (exists i | 0 <= i < |segments| :: !segments[i].Lit?)
  }

  ghost predicate InGrammar(path: string) {
    exists form :: WellFormed(form) && Show(form) == path
  }

  // ----- the shape of a template, character by character

  /** Plain characters and operators, where no operator directly follows another. */
  predicate IsTemplateText(s: string, afterOperator: bool)
    decreases |s|
  {
    if s == "" then true
    else if HasPrefix(s, MATCH_ANY_TEMPLATE) then !afterOperator && IsTemplateText(s[|MATCH_ANY_TEMPLATE|..], true)
    else if HasPrefix(s, MATCH_ONE_TEMPLATE) then !afterOperator && IsTemplateText(s[|MATCH_ONE_TEMPLATE|..], true)
    else (s[0] == '/' || IsPchar(s[0])) && IsTemplateText(s[1..], false)
  }

  lemma PlainCharThenTemplateText(c: char, rest: string, afterOperator: bool)
    requires (c == '/' || IsPchar(c)) && IsTemplateText(rest, false)
    ensures IsTemplateText([c] + rest, afterOperator)
  {
    var s := [c] + rest;
    assert s[0] == c && s[1..] == rest;
    assert !IsPchar('{');
  }

  lemma MatchOneThenTemplateText(rest: string)
    requires IsTemplateText(rest, true)
    ensures IsTemplateText(MATCH_ONE_TEMPLATE + rest, false)
  {
    var s := MATCH_ONE_TEMPLATE + rest;
    assert s[2] == '}' && s[3..] == rest;
  }

  lemma MatchAnyThenTemplateText(rest: string)
    requires IsTemplateText(rest, true)
    ensures IsTemplateText(MATCH_ANY_TEMPLATE + rest, false)
  {
    assert (MATCH_ANY_TEMPLATE + rest)[4..] == rest;
  }

  lemma {:induction false} PlainThenTemplateText(text: string, rest: string, afterOperator: bool)
    requires IsPlainText(text)
    requires IsTemplateText(rest, if text == "" then afterOperator else false)
    ensures IsTemplateText(text + rest, afterOperator)
    decreases |text|
  {
    if text == "" {
      assert text + rest == rest;
    } else {
      assert text[0] in text;
      PlainThenTemplateText(text[1..], rest, false);
      PlainCharThenTemplateText(text[0], text[1..] + rest, afterOperator);
      assert text + rest == [text[0]] + (text[1..] + rest);
    }
  }

  lemma SegmentThenTemplateText(segment: Segment, rest: string)
    requires WellFormedSegment(segment)
    requires IsTemplateText(rest, true)
    ensures IsTemplateText(ShowSegment(segment) + rest, false)
  {
    match segment
    case Lit(text) =>
      AfterOperatorWeakens(rest);
      PlainThenTemplateText(text, rest, false);
    case One => MatchOneThenTemplateText(rest);
    case Any => MatchAnyThenTemplateText(rest);
    case PrefixAny(prefix) =>
      MatchAnyThenTemplateText(rest);
      PlainThenTemplateText(prefix, MATCH_ANY_TEMPLATE + rest, false);
      ConcatAssociates(prefix, MATCH_ANY_TEMPLATE, rest);
  }

  lemma AfterOperatorWeakens(s: string)
    requires IsTemplateText(s, true)
    ensures IsTemplateText(s, false)
  {}

  lemma {:induction false} SegmentsThenTemplateText(segments: seq<Segment>, trail: nat)
    requires segments != []
    requires forall i | 0 <= i < |segments| :: WellFormedSegment(segments[i])
    ensures IsTemplateText(Join(ShowSegments(segments), "/") + Repeat('/', trail), false)
  {
    var tail := Repeat('/', trail);
    var texts := ShowSegments(segments);
    if |segments| == 1 {
      PlainThenTemplateText(tail, "", true);
      assert tail + "" == tail;
      SegmentThenTemplateText(segments[0], tail);
    } else {
      assert texts[1..] == ShowSegments(segments[1..]);
      var rest := Join(texts[1..], "/") + tail;
      assert IsTemplateText(rest, false) by {
        SegmentsThenTemplateText(segments[1..], trail);
      }
      assert IsTemplateText("/" + rest, true) by {
        PlainThenTemplateText("/", rest, true);
      }
      SegmentThenTemplateText(segments[0], "/" + rest);
      JoinHead(texts, "/", tail);
    }
  }

  lemma TemplateFormText(form: PathForm)
    requires WellFormed(form) && form.Template?
    ensures IsTemplateText(Show(form), false)
  {
    var Template(lead, segments, trail) := form;
    SegmentsThenTemplateText(segments, trail);
    var rest := Join(ShowSegments(segments), "/") + Repeat('/', trail);
    PlainThenTemplateText(Repeat('/', lead), rest, false);
    assert Show(form) == Repeat('/', lead) + rest;
  }
}
