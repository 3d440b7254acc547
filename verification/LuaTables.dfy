/** The rule tables printed into the Lua script, and the proof that they read back as the tables
    the script is meant to use. */
module LuaTables {
  import opened GoStrings
  import opened LuaPattern
  import opened Policy
  import opened LuaDecision
  import opened LuaText
  import opened Wrappers

  // ----- printing

  const REGEX_FIELD := "{regex=\""
  const METHODS_FIELD := "\",methods={"
  const METHOD_OPEN := "[\""
  const METHOD_CLOSE := "\"]=true"

  function PrintMethod(m: string): string {
    METHOD_OPEN + EscapeLuaString(m) + METHOD_CLOSE
  }

  function MethodTexts(methods: seq<string>): (texts: seq<string>)
    ensures |texts| == |methods|
    ensures forall i | 0 <= i < |methods| :: texts[i] == PrintMethod(methods[i])
  {
    seq(|methods|, i requires 0 <= i < |methods| => PrintMethod(methods[i]))
  }

  function PrintMethods(methods: seq<string>): string {
    Join(MethodTexts(methods), ",")
  }

  datatype Entry = Entry(regex: string, methods: seq<string>)

  function PrintFields(regex: string, methods: string): string {
    REGEX_FIELD + regex + METHODS_FIELD + methods + "}}"
  }

  function PrintEntry(entry: Entry): string {
    PrintFields(entry.regex, PrintMethods(entry.methods))
  }

  function EntryTexts(entries: seq<Entry>): (texts: seq<string>)
    ensures |texts| == |entries|
    ensures forall i | 0 <= i < |entries| :: texts[i] == PrintEntry(entries[i])
  {
    seq(|entries|, i requires 0 <= i < |entries| => PrintEntry(entries[i]))
  }

  function PrintEntries(entries: seq<Entry>): string {
    Join(EntryTexts(entries), ",")
  }

  function EntriesOf(matcher: RequestMatcher): (entries: seq<Entry>)
    ensures |entries| == |matcher.paths|
    ensures forall i | 0 <= i < |entries| ::
      entries[i] == Entry(ConvertRequestMatcherPathToLuaPattern(matcher.paths[i]), matcher.methods)
  {
    seq(|matcher.paths|, i requires 0 <= i < |matcher.paths| =>
      Entry(ConvertRequestMatcherPathToLuaPattern(matcher.paths[i]), matcher.methods))
  }

  function Entries(matchers: seq<RequestMatcher>): seq<Entry> {
    if matchers == [] then [] else Entries(matchers[..|matchers| - 1]) + EntriesOf(matchers[|matchers| - 1])
  }

  lemma PrintMethodsSnoc(methods: seq<string>, m: string)
    ensures PrintMethods(methods + [m]) ==
      PrintMethods(methods) + (if methods == [] then "" else ",") + PrintMethod(m)
  {
    assert MethodTexts(methods + [m]) == MethodTexts(methods) + [PrintMethod(m)];
    JoinSnoc(MethodTexts(methods), PrintMethod(m), ",");
  }

  lemma PrintEntriesSnoc(entries: seq<Entry>, entry: Entry)
    ensures PrintEntries(entries + [entry]) ==
      PrintEntries(entries) + (if entries == [] then "" else ",") + PrintEntry(entry)
  {
    assert EntryTexts(entries + [entry]) == EntryTexts(entries) + [PrintEntry(entry)];
    JoinSnoc(EntryTexts(entries), PrintEntry(entry), ",");
  }

  method ConvertRequestMatchersToLuaTableString(matchers: seq<RequestMatcher>) returns (text: string)
    ensures text == PrintTable(Entries(matchers))
  {
    text := "{";
    var first := true;
    ghost var printed: seq<Entry>, body := [], "";
    for i := 0 to |matchers|
      invariant printed == Entries(matchers[..i]) && body == PrintEntries(printed)
      invariant text == "{" + body
      invariant first <==> printed == []
    {
      EntriesSnoc(matchers, i);
      var written := WriteEntries(matchers[i], first, printed);
      ConcatAssociates("{", body, written);
      text := text + written;
      body := body + written;
      printed := printed + EntriesOf(matchers[i]);
      first := first && |matchers[i].paths| == 0;
    }
    assert matchers[..|matchers|] == matchers;
    text := text + "}";
  }

  lemma EntriesSnoc(matchers: seq<RequestMatcher>, i: nat)
    requires i < |matchers|
    ensures Entries(matchers[..i + 1]) == Entries(matchers[..i]) + EntriesOf(matchers[i])
  {
    assert matchers[..i + 1][..i] == matchers[..i];
  }

  function PrintTable(entries: seq<Entry>): string {
    "{" + PrintEntries(entries) + "}"
  }

  /** The text is what the first entries add to those printed before. */
  ghost predicate IsWritten(before: seq<Entry>, entries: seq<Entry>, n: nat, text: string) {
    n <= |entries| && PrintEntries(before + entries[..n]) == PrintEntries(before) + text
  }

  lemma NothingWritten(before: seq<Entry>, entries: seq<Entry>)
    ensures IsWritten(before, entries, 0, "")
  {
    assert before + entries[..0] == before && PrintEntries(before) + "" == PrintEntries(before);
  }

  lemma EverythingWritten(before: seq<Entry>, entries: seq<Entry>, text: string)
    requires IsWritten(before, entries, |entries|, text)
    ensures PrintEntries(before + entries) == PrintEntries(before) + text
  {
    assert entries[..|entries|] == entries;
  }

  lemma EntryWritten(before: seq<Entry>, entries: seq<Entry>, j: nat, text: string, separator: string)
    requires j < |entries| && IsWritten(before, entries, j, text)
    requires separator == if before == [] && j == 0 then "" else ","
    ensures IsWritten(before, entries, j + 1, text + (separator + PrintEntry(entries[j])))
  {
    var printed, written := before + entries[..j], PrintEntry(entries[j]);
    assert before + entries[..j + 1] == printed + [entries[j]];
    PrintEntriesSnoc(printed, entries[j]);
    ConcatAssociates(PrintEntries(printed), separator, written);
    ConcatAssociates(PrintEntries(before), text, separator + written);
  }

  /** What the inner loop writes for one matcher after the entries printed before it. */
  method WriteEntries(matcher: RequestMatcher, isFirst: bool, ghost before: seq<Entry>) returns (text: string)
    requires isFirst <==> before == []
    ensures PrintEntries(before + EntriesOf(matcher)) == PrintEntries(before) + text
  {
    text := "";
    var first := isFirst;
    ghost var entries := EntriesOf(matcher);
    NothingWritten(before, entries);
    for j := 0 to |matcher.paths|
      invariant IsWritten(before, entries, j, text)
      invariant first <==> before == [] && j == 0
    {
      var methods := WriteMethods(matcher.methods);
      var regex := ConvertRequestMatcherPathToLuaPattern(matcher.paths[j]);
      var separator := if first then "" else ",";
      EntryWritten(before, entries, j, text, separator);
      text := text + (separator + PrintFields(regex, methods));
      first := false;
    }
    EverythingWritten(before, entries, text);
  }

  method WriteMethods(methods: seq<string>) returns (text: string)
    ensures text == PrintMethods(methods)
  {
    text := "";
    if |methods| > 0 {
      for idx := 0 to |methods|
        invariant text == PrintMethods(methods[..idx])
      {
        PrintMethodsSnoc(methods[..idx], methods[idx]);
        assert methods[..idx + 1] == methods[..idx] + [methods[idx]];
        if idx > 0 {
          text := text + ",";
        }
        text := text + PrintMethod(methods[idx]);
      }
      assert methods[..|methods|] == methods;
    }
  }

  // ----- reading back

  function Expect(t: string, token: string): Option<string> {
    if HasPrefix(t, token) then Some(t[|token|..]) else None
  }

  lemma ExpectFound(token: string, rest: string)
    ensures Expect(token + rest, token) == Some(rest)
  {
    assert (token + rest)[|token|..] == rest;
  }

  /** Reads `["name"]=true`, the closing `]=true` after the closing quote. */
  function ReadMethod(t: string): (r: Option<(string, string)>)
    ensures r.Some? ==> |r.value.1| < |t|
  {
    match Expect(t, "[\"")
    case None => None
    case Some(t1) =>
      match LexString(t1)
      case None => None
      case Some((name, t2)) =>
        LexedLength(t1);
        match Expect(t2, "]=true")
        case None => None
        case Some(t3) => Some((name, t3))
  }

  /** Reads a method table up to and including its closing bracket. */
  function ReadMethods(t: string): (r: Option<(set<string>, string)>)
    ensures r.Some? ==> |r.value.1| < |t|
    decreases |t|
  {
    if HasPrefix(t, "}") then Some(({}, t[1..]))
    else
      match ReadMethod(t)
      case None => None
      case Some((name, t1)) =>
        if HasPrefix(t1, "}") then Some(({name}, t1[1..]))
        else if HasPrefix(t1, ",") && !HasPrefix(t1[1..], "}") then
          match ReadMethods(t1[1..])
          case None => None
          case Some((names, t2)) => Some(({name} + names, t2))
        else None
  }

  function ReadEntry(t: string): (r: Option<(LuaRule, string)>)
    ensures r.Some? ==> |r.value.1| < |t|
  {
    match Expect(t, "{regex=\"")
    case None => None
    case Some(t1) =>
      match LexString(t1)
      case None => None
      case Some((regex, t2)) =>
        LexedLength(t1);
        match Expect(t2, ",methods={")
        case None => None
        case Some(t3) =>
          match ReadMethods(t3)
          case None => None
          case Some((methods, t4)) =>
            match Expect(t4, "}")
            case None => None
            case Some(t5) => Some((LuaRule(regex, methods), t5))
  }

  /** Reads the entries of a rule table up to and including its closing bracket. */
  function ReadEntries(t: string): (r: Option<(seq<LuaRule>, string)>)
    decreases |t|
  {
    if HasPrefix(t, "}") then Some(([], t[1..]))
    else
      match ReadEntry(t)
      case None => None
      case Some((rule, t1)) =>
        if HasPrefix(t1, "}") then Some(([rule], t1[1..]))
        else if HasPrefix(t1, ",") && !HasPrefix(t1[1..], "}") then
          match ReadEntries(t1[1..])
          case None => None
          case Some((rules, t2)) => Some(([rule] + rules, t2))
        else None
  }

  function ReadTable(t: string): Option<(seq<LuaRule>, string)> {
    match Expect(t, "{")
    case None => None
    case Some(t1) => ReadEntries(t1)
  }

  // ----- printing then reading

  predicate MethodsHaveNoNul(methods: seq<string>) {
    forall m | m in methods :: NUL !in m
  }

  lemma ReadPrintedMethod(m: string, rest: string)
    requires NUL !in m
    ensures ReadMethod(PrintMethod(m) + rest) == Some((m, rest))
  {
    var t1 := EscapeLuaString(m) + "\"" + ("]=true" + rest);
    assert PrintMethod(m) + rest == METHOD_OPEN + t1;
    ExpectFound("[\"", t1);
    EscapedStringReadsBack(m, "]=true" + rest);
    WithoutNulUnchanged(m);
    ExpectFound("]=true", rest);
  }

  lemma PrintMethodHead(methods: seq<string>, rest: string)
    requires methods != []
    ensures !HasPrefix(PrintMethods(methods) + rest, "}")
  {
    JoinFirst(MethodTexts(methods), ",");
    assert (PrintMethods(methods) + rest)[0] == '[';
  }

  lemma PrintMethodsCons(m: string, others: seq<string>, tail: string)
    ensures PrintMethods([m] + others) + tail ==
      PrintMethod(m) + (if others == [] then tail else "," + (PrintMethods(others) + tail))
  {
    var texts := MethodTexts([m] + others);
    assert texts == [PrintMethod(m)] + MethodTexts(others);
    assert texts[1..] == MethodTexts(others);
    if others != [] {
      JoinHead(texts, ",", tail);
    }
  }

  lemma ReadLastMethod(m: string, rest: string)
    requires NUL !in m
    ensures ReadMethods(PrintMethod(m) + ("}" + rest)) == Some(({m}, rest))
  {
    ReadPrintedMethod(m, "}" + rest);
    assert ("}" + rest)[1..] == rest;
    assert (PrintMethod(m) + ("}" + rest))[0] == '[';
  }

  lemma ReadNextMethod(m: string, tail: string, names: set<string>, rest: string)
    requires NUL !in m && !HasPrefix(tail, "}")
    requires ReadMethods(tail) == Some((names, rest))
    ensures ReadMethods(PrintMethod(m) + ("," + tail)) == Some(({m} + names, rest))
  {
    ReadPrintedMethod(m, "," + tail);
    assert ("," + tail)[1..] == tail;
    assert (PrintMethod(m) + ("," + tail))[0] == '[';
  }

  lemma {:induction false} ReadPrintedMethods(methods: seq<string>, rest: string)
    requires MethodsHaveNoNul(methods)
    ensures ReadMethods(PrintMethods(methods) + ("}" + rest)) == Some(((set m | m in methods), rest))
  {
    if methods == [] {
      assert (set m | m in methods) == {};
      assert PrintMethods(methods) + ("}" + rest) == "}" + rest;
      assert ("}" + rest)[1..] == rest;
    } else {
      var m, others := methods[0], methods[1..];
      assert methods == [m] + others;
      assert m in methods;
      assert (set x | x in methods) == {m} + (set x | x in others);
      PrintMethodsCons(m, others, "}" + rest);
      if others == [] {
        assert (set x | x in methods) == {m};
        ReadLastMethod(m, rest);
      } else {
        PrintMethodHead(others, "}" + rest);
        ReadPrintedMethods(others, rest);
        ReadNextMethod(m, PrintMethods(others) + ("}" + rest), (set x | x in others), rest);
      }
    }
  }

  function RuleOfEntry(entry: Entry): LuaRule {
    LuaRule(entry.regex, set m | m in entry.methods)
  }

  function RulesOfEntries(entries: seq<Entry>): (rules: seq<LuaRule>)
    ensures |rules| == |entries|
    ensures forall i | 0 <= i < |entries| :: rules[i] == RuleOfEntry(entries[i])
  {
    seq(|entries|, i requires 0 <= i < |entries| => RuleOfEntry(entries[i]))
  }

  predicate EntryIsPrintable(entry: Entry) {
    IsLuaSafe(entry.regex) && MethodsHaveNoNul(entry.methods)
  }

  lemma FieldsAreTokens(regex: string, methods: string, rest: string)
    ensures PrintFields(regex, methods) + rest ==
      REGEX_FIELD + (regex + "\"" + (",methods={" + (methods + ("}" + ("}" + rest)))))
  {}

  lemma ReadPrintedEntry(entry: Entry, rest: string)
    requires EntryIsPrintable(entry)
    ensures ReadEntry(PrintEntry(entry) + rest) == Some((RuleOfEntry(entry), rest))
  {
    var t4 := "}" + rest;
    var t3 := PrintMethods(entry.methods) + ("}" + t4);
    var t2 := ",methods={" + t3;
    FieldsAreTokens(entry.regex, PrintMethods(entry.methods), rest);
    ExpectFound(REGEX_FIELD, entry.regex + "\"" + t2);
    RawStringReadsBackIffSafe(entry.regex, t2);
    ExpectFound(",methods={", t3);
    ReadPrintedMethods(entry.methods, t4);
    ExpectFound("}", rest);
  }

  lemma PrintEntryHead(entry: Entry, rest: string)
    ensures !HasPrefix(PrintEntry(entry) + rest, "}")
  {
    assert (PrintEntry(entry) + rest)[0] == '{';
  }

  lemma PrintEntriesHead(entries: seq<Entry>, rest: string)
    requires entries != []
    ensures !HasPrefix(PrintEntries(entries) + rest, "}")
  {
    assert EntryTexts(entries)[0][0] == '{';
    JoinFirst(EntryTexts(entries), ",");
    assert (PrintEntries(entries) + rest)[0] == '{';
  }

  lemma PrintEntriesCons(entry: Entry, others: seq<Entry>, tail: string)
    ensures PrintEntries([entry] + others) + tail ==
      PrintEntry(entry) + (if others == [] then tail else "," + (PrintEntries(others) + tail))
  {
    var texts := EntryTexts([entry] + others);
    assert texts == [PrintEntry(entry)] + EntryTexts(others);
    assert texts[1..] == EntryTexts(others);
    if others != [] {
      JoinHead(texts, ",", tail);
    }
  }

  lemma ReadLastEntry(entry: Entry, rest: string)
    requires EntryIsPrintable(entry)
    ensures ReadEntries(PrintEntry(entry) + ("}" + rest)) == Some(([RuleOfEntry(entry)], rest))
  {
    ReadPrintedEntry(entry, "}" + rest);
    PrintEntryHead(entry, "}" + rest);
    assert ("}" + rest)[1..] == rest;
  }

  lemma ReadNextEntry(entry: Entry, tail: string, rules: seq<LuaRule>, rest: string)
    requires EntryIsPrintable(entry) && !HasPrefix(tail, "}")
    requires ReadEntries(tail) == Some((rules, rest))
    ensures ReadEntries(PrintEntry(entry) + ("," + tail)) == Some(([RuleOfEntry(entry)] + rules, rest))
  {
    ReadPrintedEntry(entry, "," + tail);
    PrintEntryHead(entry, "," + tail);
    assert ("," + tail)[1..] == tail;
  }

  lemma RulesOfCons(entry: Entry, others: seq<Entry>)
    ensures RulesOfEntries([entry] + others) == [RuleOfEntry(entry)] + RulesOfEntries(others)
    ensures others == [] ==> RulesOfEntries([entry] + others) == [RuleOfEntry(entry)]
  {}

  lemma ReadEntriesCons(entry: Entry, others: seq<Entry>, rest: string)
    requires EntryIsPrintable(entry)
    requires ReadEntries(PrintEntries(others) + ("}" + rest)) == Some((RulesOfEntries(others), rest))
    ensures ReadEntries(PrintEntries([entry] + others) + ("}" + rest)) == Some((RulesOfEntries([entry] + others), rest))
  {
    PrintEntriesCons(entry, others, "}" + rest);
    RulesOfCons(entry, others);
    if others == [] {
      ReadLastEntry(entry, rest);
    } else {
      PrintEntriesHead(others, "}" + rest);
      ReadNextEntry(entry, PrintEntries(others) + ("}" + rest), RulesOfEntries(others), rest);
    }
  }

  lemma {:induction false} ReadPrintedEntries(entries: seq<Entry>, rest: string)
    requires forall entry | entry in entries :: EntryIsPrintable(entry)
    ensures ReadEntries(PrintEntries(entries) + ("}" + rest)) == Some((RulesOfEntries(entries), rest))
  {
    if entries == [] {
      assert PrintEntries(entries) + ("}" + rest) == "}" + rest;
      assert ("}" + rest)[1..] == rest;
    } else {
      assert entries[0] in entries;
      ReadPrintedEntries(entries[1..], rest);
      ReadEntriesCons(entries[0], entries[1..], rest);
      assert entries == [entries[0]] + entries[1..];
    }
  }

  // ----- the printed table is the table of the matchers

  lemma {:induction false} LuaTableSnoc(matchers: seq<RequestMatcher>, matcher: RequestMatcher)
    ensures LuaTable(matchers + [matcher]) == LuaTable(matchers) + LuaRulesOf(matcher)
  {
    TableConcat(matchers, [matcher]);
    assert [matcher][1..] == [];
    assert LuaTable([matcher]) == LuaRulesOf(matcher);
  }

  lemma RulesOfConcat(a: seq<Entry>, b: seq<Entry>)
    ensures RulesOfEntries(a + b) == RulesOfEntries(a) + RulesOfEntries(b)
  {}

  lemma RulesOfMatcher(matcher: RequestMatcher)
    ensures RulesOfEntries(EntriesOf(matcher)) == LuaRulesOf(matcher)
  {}

  lemma {:induction false} EntriesAreTheTable(matchers: seq<RequestMatcher>)
    ensures RulesOfEntries(Entries(matchers)) == LuaTable(matchers)
  {
    if matchers != [] {
      var init, last := matchers[..|matchers| - 1], matchers[|matchers| - 1];
      EntriesAreTheTable(init);
      LuaTableSnoc(init, last);
      RulesOfMatcher(last);
      RulesOfConcat(Entries(init), EntriesOf(last));
      assert matchers == init + [last];
    }
  }

  /** What a matcher must avoid for its entries to be printable. */
  predicate MatcherIsPrintable(matcher: RequestMatcher) {
    && MethodsHaveNoNul(matcher.methods)
    && forall path | path in matcher.paths :: IsLuaSafe(ConvertRequestMatcherPathToLuaPattern(path))
  }

  lemma {:induction false} EntriesArePrintable(matchers: seq<RequestMatcher>)
    requires forall matcher | matcher in matchers :: MatcherIsPrintable(matcher)
    ensures forall entry | entry in Entries(matchers) :: EntryIsPrintable(entry)
  {
    if matchers != [] {
      var init, last := matchers[..|matchers| - 1], matchers[|matchers| - 1];
      EntriesArePrintable(init);
      assert last in matchers;
      forall entry | entry in EntriesOf(last) ensures EntryIsPrintable(entry) {
        var i :| 0 <= i < |last.paths| && EntriesOf(last)[i] == entry;
        assert last.paths[i] in last.paths;
      }
    }
  }

  /** The printed table reads back as one rule per path, in order, with the method set of its
      matcher, and what follows the table is untouched. */
  lemma PrintedTableReadsBack(matchers: seq<RequestMatcher>, rest: string)
    requires forall matcher | matcher in matchers :: MatcherIsPrintable(matcher)
    ensures ReadTable(PrintTable(Entries(matchers)) + rest) == Some((LuaTable(matchers), rest))
  {
    EntriesArePrintable(matchers);
    EntriesAreTheTable(matchers);
    ReadPrintedEntries(Entries(matchers), rest);
    var t := PrintEntries(Entries(matchers)) + ("}" + rest);
    assert PrintTable(Entries(matchers)) + rest == "{" + t;
    ExpectFound("{", t);
  }

  /** Matchers with validated paths and accepted methods are printable. */
  lemma ValidatedMatchersArePrintable(matcher: RequestMatcher)
    requires forall path | path in matcher.paths :: PathValidation.IsValidPath(path)
    requires MethodsAreAccepted(matcher)
    ensures MatcherIsPrintable(matcher)
  {
    forall path | path in matcher.paths ensures IsLuaSafe(ConvertRequestMatcherPathToLuaPattern(path)) {
      ValidPathPatternIsSafe(path);
    }
  }

  // ----- exactly when a printed table reads back

  lemma EntryReadsBackOnlyIfSafe(entry: Entry, rest: string)
    requires ReadEntry(PrintEntry(entry) + rest).Some?
    requires ReadEntry(PrintEntry(entry) + rest).value.0.regex == entry.regex
    ensures IsLuaSafe(entry.regex)
  {
    var t2 := ",methods={" + (PrintMethods(entry.methods) + ("}" + ("}" + rest)));
    FieldsAreTokens(entry.regex, PrintMethods(entry.methods), rest);
    ExpectFound(REGEX_FIELD, entry.regex + "\"" + t2);
    LexedAsItselfIsSafe(entry.regex, t2);
  }

  /** The head of a read table is the entry at its head. */
  lemma ReadEntriesHead(t: string)
    requires ReadEntries(t).Some? && !HasPrefix(t, "}")
    ensures ReadEntry(t).Some? && ReadEntries(t).value.0 != []
    ensures ReadEntries(t).value.0[0] == ReadEntry(t).value.0
    ensures var t1 := ReadEntry(t).value.1;
      HasPrefix(t1, ",") ==>
        ReadEntries(t1[1..]) == Some((ReadEntries(t).value.0[1..], ReadEntries(t).value.1))
  {}

  lemma ReadsBackHead(entry: Entry, others: seq<Entry>, rest: string)
    requires MethodsHaveNoNul(entry.methods)
    requires ReadEntries(PrintEntries([entry] + others) + ("}" + rest)) == Some((RulesOfEntries([entry] + others), rest))
    ensures IsLuaSafe(entry.regex)
    ensures ReadEntries(PrintEntries(others) + ("}" + rest)) == Some((RulesOfEntries(others), rest))
  {
    var t := PrintEntries([entry] + others) + ("}" + rest);
    var tail := if others == [] then "}" + rest else "," + (PrintEntries(others) + ("}" + rest));
    PrintEntriesCons(entry, others, "}" + rest);
    PrintEntryHead(entry, tail);
    ReadEntriesHead(t);
    RulesOfCons(entry, others);
    EntryReadsBackOnlyIfSafe(entry, tail);
    ReadPrintedEntry(entry, tail);
    if others == [] {
      NoEntriesReadBack(rest);
    } else {
      assert tail[1..] == PrintEntries(others) + ("}" + rest);
      assert RulesOfEntries([entry] + others)[1..] == RulesOfEntries(others);
    }
  }

  lemma NoEntriesReadBack(rest: string)
    ensures ReadEntries(PrintEntries([]) + ("}" + rest)) == Some((RulesOfEntries([]), rest))
  {
    assert PrintEntries([]) + ("}" + rest) == "}" + rest;
    assert ("}" + rest)[1..] == rest;
  }

  lemma {:induction false} EntriesReadBackOnlyIfSafe(entries: seq<Entry>, rest: string)
    requires forall entry | entry in entries :: MethodsHaveNoNul(entry.methods)
    requires ReadEntries(PrintEntries(entries) + ("}" + rest)) == Some((RulesOfEntries(entries), rest))
    ensures forall entry | entry in entries :: IsLuaSafe(entry.regex)
  {
    if entries != [] {
      var entry, others := entries[0], entries[1..];
      assert entries == [entry] + others && entry in entries;
      ReadsBackHead(entry, others, rest);
      EntriesReadBackOnlyIfSafe(others, rest);
    }
  }

  lemma InEitherPart<T>(x: T, a: seq<T>, b: seq<T>)
    ensures x in a + b <==> x in a || x in b
  {}

  lemma {:induction false} EntriesComeFromMatchers(matchers: seq<RequestMatcher>, entry: Entry)
    ensures entry in Entries(matchers) <==> exists matcher | matcher in matchers :: entry in EntriesOf(matcher)
  {
    if matchers != [] {
      var init, last := matchers[..|matchers| - 1], matchers[|matchers| - 1];
      EntriesComeFromMatchers(init, entry);
      InEitherPart(entry, Entries(init), EntriesOf(last));
      assert matchers == init + [last];
    }
  }

  /** All paths of the matchers can be printed without escaping. */
  predicate PathsAreSafe(matchers: seq<RequestMatcher>) {
    forall matcher | matcher in matchers :: forall path | path in matcher.paths :: IsLuaSafe(path)
  }

  lemma SafeEntriesAreSafePaths(matchers: seq<RequestMatcher>)
    ensures (forall entry | entry in Entries(matchers) :: IsLuaSafe(entry.regex)) <==> PathsAreSafe(matchers)
  {
    if PathsAreSafe(matchers) {
      forall entry | entry in Entries(matchers) ensures IsLuaSafe(entry.regex) {
        EntriesComeFromMatchers(matchers, entry);
        var matcher :| matcher in matchers && entry in EntriesOf(matcher);
        var i :| 0 <= i < |matcher.paths| && EntriesOf(matcher)[i] == entry;
        assert matcher.paths[i] in matcher.paths;
        PatternIsSafeIffPathIs(matcher.paths[i]);
      }
    } else {
      var matcher :| matcher in matchers && exists path | path in matcher.paths :: !IsLuaSafe(path);
      var path :| path in matcher.paths && !IsLuaSafe(path);
      var i :| 0 <= i < |matcher.paths| && matcher.paths[i] == path;
      var entry := EntriesOf(matcher)[i];
      EntriesComeFromMatchers(matchers, entry);
      PatternIsSafeIffPathIs(path);
      assert entry in Entries(matchers) && !IsLuaSafe(entry.regex);
    }
  }

  /** Parsing the printed table gives the table that the script is meant to use. */
  ghost predicate TableReadsBack(matchers: seq<RequestMatcher>, rest: string) {
    ReadTable(PrintTable(Entries(matchers)) + rest) == Some((LuaTable(matchers), rest))
  }

  lemma TableReadsBackAsEntries(matchers: seq<RequestMatcher>, rest: string)
    ensures TableReadsBack(matchers, rest) <==>
      ReadEntries(PrintEntries(Entries(matchers)) + ("}" + rest)) == Some((RulesOfEntries(Entries(matchers)), rest))
  {
    ReadTableText(Entries(matchers), rest);
    EntriesAreTheTable(matchers);
  }

  lemma ReadTableText(entries: seq<Entry>, rest: string)
    ensures ReadTable(PrintTable(entries) + rest) == ReadEntries(PrintEntries(entries) + ("}" + rest))
  {
    TableText(PrintEntries(entries), rest);
    ExpectFound("{", PrintEntries(entries) + ("}" + rest));
  }

  lemma TableText(body: string, rest: string)
    ensures "{" + body + "}" + rest == "{" + (body + ("}" + rest))
  {}

  lemma EntriesHaveNoNul(matchers: seq<RequestMatcher>)
    requires forall matcher | matcher in matchers :: MethodsHaveNoNul(matcher.methods)
    ensures forall entry | entry in Entries(matchers) :: MethodsHaveNoNul(entry.methods)
  {
    forall entry | entry in Entries(matchers) ensures MethodsHaveNoNul(entry.methods) {
      EntriesComeFromMatchers(matchers, entry);
    }
  }

  lemma EntriesReadBackIffSafe(entries: seq<Entry>, rest: string)
    requires forall entry | entry in entries :: MethodsHaveNoNul(entry.methods)
    ensures ReadEntries(PrintEntries(entries) + ("}" + rest)) == Some((RulesOfEntries(entries), rest))
      <==> forall entry | entry in entries :: IsLuaSafe(entry.regex)
  {
    if ReadEntries(PrintEntries(entries) + ("}" + rest)) == Some((RulesOfEntries(entries), rest)) {
      EntriesReadBackOnlyIfSafe(entries, rest);
    }
    if forall entry | entry in entries :: IsLuaSafe(entry.regex) {
      ReadPrintedEntries(entries, rest);
    }
  }

  /** For any paths, valid or not: the printed table reads back if and only if no path has a quote, a
      backslash, a line break or a NUL byte. */
  lemma TableReadsBackIffPathsAreSafe(matchers: seq<RequestMatcher>, rest: string)
    requires forall matcher | matcher in matchers :: MethodsHaveNoNul(matcher.methods)
    ensures TableReadsBack(matchers, rest) <==> PathsAreSafe(matchers)
  {
    TableReadsBackAsEntries(matchers, rest);
    SafeEntriesAreSafePaths(matchers);
    EntriesHaveNoNul(matchers);
    EntriesReadBackIffSafe(Entries(matchers), rest);
  }

  lemma AcceptedMethodsHaveNoNul(matcher: RequestMatcher)
    requires MethodsAreAccepted(matcher)
    ensures MethodsHaveNoNul(matcher.methods)
  {
    assert forall m | m in ACCEPTED_HTTP_METHODS :: NUL !in m;
  }

  /** The table of required rules also lists the paths of auto-login, which nothing validates: it reads
      back if and only if those are free of quotes, backslashes, line breaks and NUL bytes. */
  lemma RequireTableReadsBackIff(spec: AuthPolicySpec, config: AutoLoginConfig, rest: string)
    requires AllPathsValid(spec) && AllMethodsAccepted(spec)
    ensures TableReadsBack(RequireAuthMatchers(spec, config), rest) <==>
      forall path | path in AutoLoginPaths(config) :: IsLuaSafe(path)
  {
    var matchers, auto := RequireAuthMatchers(spec, config), RequestMatcher(AutoLoginPaths(config), []);
    var n := |AuthRules(spec)|;
    assert matchers[n] == auto;
    forall i | 0 <= i < n
      ensures MethodsHaveNoNul(matchers[i].methods) && forall path | path in matchers[i].paths :: IsLuaSafe(path)
    {
      assert matchers[i] == AuthRules(spec)[i].matcher && AuthRules(spec)[i] in AuthRules(spec);
      AcceptedMethodsHaveNoNul(matchers[i]);
      forall path | path in matchers[i].paths ensures IsLuaSafe(path) {
        assert MentionsPath(spec, path);
        ValidPathPatternIsSafe(path);
        PatternIsSafeIffPathIs(path);
      }
    }
    TableReadsBackIffPathsAreSafe(matchers, rest);
    assert PathsAreSafe(matchers) <==> forall path | path in auto.paths :: IsLuaSafe(path);
  }

  lemma UnsafeRedirectPathBreaksTheTable(spec: AuthPolicySpec, config: AutoLoginConfig, rest: string)
    requires AllPathsValid(spec) && AllMethodsAccepted(spec) && !IsLuaSafe(config.redirectPath)
    ensures !TableReadsBack(RequireAuthMatchers(spec, config), rest)
  {
    assert AutoLoginPaths(config)[0] == config.redirectPath;
    RequireTableReadsBackIff(spec, config, rest);
  }

  const QUOTED_PATH := "/a\"b"

  lemma QuotedPathIsUnsafe()
    ensures !IsLuaSafe(QUOTED_PATH)
  {
    var c := QUOTED_PATH[2];
    assert c in QUOTED_PATH && c == UNSAFE_CHARACTERS[0];
    assert c in UNSAFE_CHARACTERS;
  }

  /** A redirect path with a quote breaks the table of required rules. */
  lemma QuotedRedirectPathBreaksTheTable(spec: AuthPolicySpec, rest: string)
    requires AllPathsValid(spec) && AllMethodsAccepted(spec)
    ensures !TableReadsBack(RequireAuthMatchers(spec, AutoLoginConfig(QUOTED_PATH, "/logout", None)), rest)
  {
    QuotedPathIsUnsafe();
    UnsafeRedirectPathBreaksTheTable(spec, AutoLoginConfig(QUOTED_PATH, "/logout", None), rest);
  }

  const NUL_PATH := "/a\0b"

  lemma NulPathIsUnsafe()
    ensures !IsLuaSafe(NUL_PATH)
  {
    assert NUL_PATH[2] in NUL_PATH && NUL_PATH[2] == UNSAFE_CHARACTERS[4];
  }

  /** So does a redirect path with a NUL byte. */
  lemma NulInRedirectPathBreaksTheTable(spec: AuthPolicySpec, rest: string)
    requires AllPathsValid(spec) && AllMethodsAccepted(spec)
    ensures !TableReadsBack(RequireAuthMatchers(spec, AutoLoginConfig(NUL_PATH, "/logout", None)), rest)
  {
    NulPathIsUnsafe();
    UnsafeRedirectPathBreaksTheTable(spec, AutoLoginConfig(NUL_PATH, "/logout", None), rest);
  }
}
