/** The login-parameter table printed into the Lua script. */
module LuaLoginParams {
  import opened GoStrings
  import opened QueryString
  import opened LuaText
  import opened LuaTables
  import opened Wrappers

  // ----- url.QueryEscape, byte by byte

  function HexDigit(n: nat): char
    requires n < 16
  {
    "0123456789ABCDEF"[n]
  }

  predicate IsUnreserved(c: char) {
    'a' <= c <= 'z' || 'A' <= c <= 'Z' || '0' <= c <= '9' || c == '-' || c == '_' || c == '.' || c == '~'
  }

  function QueryEscapeChar(c: char): string {
    if IsUnreserved(c) then [c]
    else if c == ' ' then "+"
    else ['%', HexDigit(c as int / 16 % 16), HexDigit(c as int % 16)]
  }

  function QueryEscape(s: string): string {
    if s == "" then "" else QueryEscapeChar(s[0]) + QueryEscape(s[1..])
  }

  /** An escaped value is a query field: none of its characters delimits fields or is NUL, and it is
      empty only if the value was. */
  lemma {:induction false} EscapedValueIsFieldText(s: string)
    ensures IsFieldText(QueryEscape(s)) && NUL !in QueryEscape(s)
    ensures QueryEscape(s) == "" <==> s == ""
  {
    if s != "" {
      EscapedValueIsFieldText(s[1..]);
      EscapedCharIsFieldText(s[0]);
    }
  }

  lemma EscapedCharIsFieldText(c: char)
    ensures IsFieldText(QueryEscapeChar(c)) && NUL !in QueryEscapeChar(c) && QueryEscapeChar(c) != ""
  {
    forall n: nat | n < 16 ensures IsFieldChar(HexDigit(n)) && HexDigit(n) != NUL {}
    if !IsUnreserved(c) && c != ' ' {
      var a, b := HexDigit(c as int / 16 % 16), HexDigit(c as int % 16);
      assert QueryEscapeChar(c) == ['%', a, b];
    }
  }

  // ----- unescaping, independently

  function HexValue(c: char): Option<int> {
    if '0' <= c <= '9' then Some(c as int - '0' as int)
    else if 'A' <= c <= 'F' then Some(c as int - 'A' as int + 10)
    else if 'a' <= c <= 'f' then Some(c as int - 'a' as int + 10)
    else None
  }

  function InFrontOf(c: char, decoded: Option<string>): Option<string> {
    if decoded.None? then None else Some([c] + decoded.value)
  }

  /** Section 2.1 of RFC 3986, and a plus sign for a space. */
  function QueryUnescape(s: string): Option<string>
    decreases |s|
  {
    if s == "" then Some("")
    else if s[0] == '+' then InFrontOf(' ', QueryUnescape(s[1..]))
    else if s[0] != '%' then InFrontOf(s[0], QueryUnescape(s[1..]))
    else if |s| < 3 || HexValue(s[1]).None? || HexValue(s[2]).None? then None
    else
      var code := 16 * HexValue(s[1]).value + HexValue(s[2]).value;
      if 0 <= code < 256 then InFrontOf(code as char, QueryUnescape(s[3..])) else None
  }

  predicate IsByteString(s: string) {
    forall c | c in s :: c as int < 256
  }

  lemma HexDigitHasItsValue(n: nat)
    requires n < 16
    ensures HexValue(HexDigit(n)) == Some(n)
  {}

  lemma UnescapeEscapedChar(c: char, rest: string)
    requires c as int < 256
    ensures QueryUnescape(QueryEscapeChar(c) + rest) == InFrontOf(c, QueryUnescape(rest))
  {
    var t := QueryEscapeChar(c) + rest;
    if IsUnreserved(c) || c == ' ' {
      assert t[1..] == rest;
    } else {
      HexDigitHasItsValue(c as int / 16 % 16);
      HexDigitHasItsValue(c as int % 16);
      assert t[3..] == rest;
    }
  }

  /** Every string of bytes is read back from its escaped form. */
  lemma {:induction false} EscapedValueReadsBack(s: string)
    requires IsByteString(s)
    ensures QueryUnescape(QueryEscape(s)) == Some(s)
  {
    if s != "" {
      assert s == [s[0]] + s[1..] && s[0] in s;
      assert forall c | c in s[1..] :: c in s;
      EscapedValueReadsBack(s[1..]);
      UnescapeEscapedChar(s[0], QueryEscape(s[1..]));
    }
  }

  function EncodeLoginParams(raw: Params): (encoded: Params)
    ensures encoded.Keys == raw.Keys
  {
    map k | k in raw :: QueryEscape(raw[k])
  }

  // ----- sorted keys

  predicate Less(a: string, b: string) {
    if b == "" then false
    else if a == "" then true
    else if a[0] != b[0] then a[0] < b[0]
    else Less(a[1..], b[1..])
  }

  lemma {:induction false} LessIsTotal(a: string, b: string)
    ensures Less(a, b) || a == b || Less(b, a)
    ensures !(Less(a, b) && Less(b, a)) && !Less(a, a)
  {
    if a != "" {
      LessIsTotal(a[1..], a[1..]);
      if b != "" {
        LessIsTotal(a[1..], b[1..]);
        assert a == [a[0]] + a[1..] && b == [b[0]] + b[1..];
      }
    }
  }

  lemma {:induction false} LessIsTransitive(a: string, b: string, c: string)
    requires Less(a, b) && Less(b, c)
    ensures Less(a, c)
  {
    if a != "" && a[0] == b[0] == c[0] {
      LessIsTransitive(a[1..], b[1..], c[1..]);
    }
  }

  /** The first difference between two strings, at which the first has the smaller byte. */
  predicate DiffersSmaller(a: string, b: string, i: nat) {
    i < |a| && i < |b| && a[..i] == b[..i] && a[i] < b[i]
  }

  lemma DiffersBehindTheHead(a: string, b: string, i: nat)
    requires a != "" && b != "" && a[0] == b[0]
    ensures DiffersSmaller(a, b, i + 1) <==> DiffersSmaller(a[1..], b[1..], i)
  {
    if i < |a| - 1 && i < |b| - 1 {
      assert a[..i + 1] == [a[0]] + a[1..][..i] && b[..i + 1] == [b[0]] + b[1..][..i];
      assert a[1..][..i] == a[..i + 1][1..] && b[1..][..i] == b[..i + 1][1..];
    }
  }

  /** The order of byte strings: a proper prefix comes first, otherwise the first difference decides. */
  lemma {:induction false} LessIsLexicographic(a: string, b: string)
    ensures Less(a, b) <==> a < b || exists i: nat :: DiffersSmaller(a, b, i)
  {
    if a != "" && b != "" {
      if a[0] == b[0] {
        LessIsLexicographic(a[1..], b[1..]);
        assert a == [a[0]] + a[1..] && b == [b[0]] + b[1..];
        if i: nat :| DiffersSmaller(a[1..], b[1..], i) {
          DiffersBehindTheHead(a, b, i);
        }
        if i: nat :| DiffersSmaller(a, b, i) {
          DiffersBehindTheHead(a, b, i - 1);
        }
      } else {
        assert DiffersSmaller(a, b, 0) <==> a[0] < b[0];
        forall i: nat | i > 0 ensures !DiffersSmaller(a, b, i) {
          if i < |a| && i < |b| {
            assert a[..i][0] == a[0] && b[..i][0] == b[0];
          }
        }
      }
    }
  }

  ghost predicate IsSorted(keys: seq<string>) {
    forall i, j | 0 <= i < j < |keys| :: Less(keys[i], keys[j])
  }

  ghost predicate IsSortedListOf(list: seq<string>, keys: set<string>) {
    IsSorted(list) && forall k :: k in list <==> k in keys
  }

  /** There is one sorted list of a set of keys. */
  lemma {:induction false} SortedListIsUnique(a: seq<string>, b: seq<string>, keys: set<string>)
    requires IsSortedListOf(a, keys) && IsSortedListOf(b, keys)
    ensures a == b
    decreases |a|
  {
    if a == [] {
      assert forall i | 0 <= i < |b| :: b[i] in b;
    } else {
      assert a[0] in b && b != [];
      assert b[0] in a;
      LessIsTotal(a[0], b[0]);
      assert a[0] == b[0];
      TailIsSorted(a, keys);
      TailIsSorted(b, keys);
      SortedListIsUnique(a[1..], b[1..], keys - {a[0]});
      assert a == [a[0]] + a[1..] && b == [b[0]] + b[1..];
    }
  }

  lemma TailIsSorted(a: seq<string>, keys: set<string>)
    requires IsSortedListOf(a, keys) && a != []
    ensures IsSortedListOf(a[1..], keys - {a[0]})
  {
    var tail := a[1..];
    forall i, j | 0 <= i < j < |tail| ensures Less(tail[i], tail[j]) {
      assert tail[i] == a[i + 1] && tail[j] == a[j + 1];
    }
    forall k ensures k in tail <==> k in keys - {a[0]} {
      if k in tail {
        var i :| 0 <= i < |tail| && tail[i] == k;
        assert a[i + 1] == k;
        LessIsTotal(a[0], k);
      }
      assert a == [a[0]] + tail;
    }
  }

  lemma InsertedIsSorted(sorted: seq<string>, i: nat, key: string, keys: set<string>)
    requires IsSortedListOf(sorted, keys) && i <= |sorted|
    requires forall j | 0 <= j < i :: Less(sorted[j], key)
    requires forall j | i <= j < |sorted| :: Less(key, sorted[j])
    ensures IsSortedListOf(sorted[..i] + [key] + sorted[i..], keys + {key})
  {
    assert sorted == sorted[..i] + sorted[i..];
  }

  /** Inserts a new key where it belongs. */
  method InsertSorted(sorted: seq<string>, key: string, ghost keys: set<string>) returns (result: seq<string>)
    requires IsSortedListOf(sorted, keys) && key !in keys
    ensures IsSortedListOf(result, keys + {key})
  {
    var i := 0;
    while i < |sorted| && Less(sorted[i], key)
      invariant 0 <= i <= |sorted|
      invariant forall j | 0 <= j < i :: Less(sorted[j], key)
    {
      i := i + 1;
    }
    result := sorted[..i] + [key] + sorted[i..];
    forall j | i <= j < |sorted| ensures Less(key, sorted[j]) {
      assert sorted[i] in keys;
      LessIsTotal(sorted[i], key);
      if i < j { LessIsTransitive(key, sorted[i], sorted[j]); }
    }
    InsertedIsSorted(sorted, i, key, keys);
  }

  // ----- printing

  const PARAM_EQUALS := "\"]=\""

  function PrintParam(k: string, v: string): string {
    METHOD_OPEN + EscapeLuaString(k) + PARAM_EQUALS + EscapeLuaString(v) + "\""
  }

  function ParamTexts(keys: seq<string>, params: Params): (texts: seq<string>)
    requires forall k | k in keys :: k in params
    ensures |texts| == |keys|
    ensures forall i | 0 <= i < |keys| :: texts[i] == PrintParam(keys[i], params[keys[i]])
  {
    seq(|keys|, i requires 0 <= i < |keys| => assert keys[i] in keys; PrintParam(keys[i], params[keys[i]]))
  }

  function PrintParams(keys: seq<string>, params: Params): string
    requires forall k | k in keys :: k in params
  {
    "{" + Join(ParamTexts(keys, params), ",") + "}"
  }

  /** The keys of a map, collected in any order and sorted. */
  method SortedKeys(params: Params) returns (keys: seq<string>)
    ensures IsSortedListOf(keys, params.Keys)
  {
    keys := [];
    var remaining := params.Keys;
    while remaining != {}
      invariant remaining <= params.Keys
      invariant IsSortedListOf(keys, params.Keys - remaining)
    {
      var k :| k in remaining;
      keys := InsertSorted(keys, k, params.Keys - remaining);
      assert params.Keys - (remaining - {k}) == params.Keys - remaining + {k};
      remaining := remaining - {k};
    }
    assert params.Keys - remaining == params.Keys;
  }

  method WriteParams(keys: seq<string>, params: Params) returns (body: string)
    requires forall k | k in keys :: k in params
    ensures body == Join(ParamTexts(keys, params), ",")
  {
    body := "";
    var first := true;
    ghost var texts := ParamTexts(keys, params);
    for i := 0 to |keys|
      invariant body == Join(texts[..i], ",")
      invariant first <==> i == 0
    {
      JoinNext(texts, i, ",");
      assert keys[i] in keys;
      body := body + (if first then "" else ",") + PrintParam(keys[i], params[keys[i]]);
      first := false;
    }
    assert texts[..|keys|] == texts;
  }

  /** Whatever the iteration order of the map, the text lists its keys in sorted order. */
  method ConvertLoginParamsToLuaParams(raw: Params) returns (text: string)
    ensures exists keys :: IsSortedListOf(keys, raw.Keys) && text == PrintParams(keys, EncodeLoginParams(raw))
  {
    var params := EncodeLoginParams(raw);
    if |params| == 0 {
      text := "{}";
      assert IsSortedListOf([], raw.Keys) && text == PrintParams([], params);
      return;
    }
    var keys := SortedKeys(params);
    var body := WriteParams(keys, params);
    text := "{" + body + "}";
  }

  // ----- reading back

  function ReadParam(t: string): (r: Option<(string, string, string)>)
    ensures r.Some? ==> |r.value.2| < |t|
  {
    match Expect(t, "[\"")
    case None => None
    case Some(t1) =>
      match LexString(t1)
      case None => None
      case Some((k, t2)) =>
        LexedLength(t1);
        match Expect(t2, "]=\"")
        case None => None
        case Some(t3) =>
          match LexString(t3)
          case None => None
          case Some((v, t4)) =>
            LexedLength(t3);
            Some((k, v, t4))
  }

  function ReadParams(t: string): Option<(Params, string)>
    decreases |t|
  {
    if HasPrefix(t, "}") then Some((map[], t[1..]))
    else
      match ReadParam(t)
      case None => None
      case Some((k, v, t1)) =>
        if HasPrefix(t1, "}") then Some((map[k := v], t1[1..]))
        else if HasPrefix(t1, ",") && !HasPrefix(t1[1..], "}") then
          match ReadParams(t1[1..])
          case None => None
          case Some((params, t2)) => Some((map[k := v] + params, t2))
        else None
  }

  /** Reads the table at the head of a text. */
  function ReadParamTable(t: string): Option<(Params, string)> {
    match Expect(t, "{")
    case None => None
    case Some(t1) => ReadParams(t1)
  }

  lemma ReadPrintedParam(k: string, v: string, rest: string)
    requires NUL !in k && NUL !in v
    ensures ReadParam(PrintParam(k, v) + rest) == Some((k, v, rest))
  {
    var t3 := EscapeLuaString(v) + "\"" + rest;
    var t1 := EscapeLuaString(k) + "\"" + ("]=\"" + t3);
    assert PrintParam(k, v) + rest == METHOD_OPEN + t1;
    ExpectFound("[\"", t1);
    EscapedStringReadsBack(k, "]=\"" + t3);
    WithoutNulUnchanged(k);
    ExpectFound("]=\"", t3);
    EscapedStringReadsBack(v, rest);
    WithoutNulUnchanged(v);
  }

  lemma ParamHead(k: string, v: string, rest: string)
    ensures !HasPrefix(PrintParam(k, v) + rest, "}")
  {
    assert (PrintParam(k, v) + rest)[0] == '[';
  }

  lemma ReadLastParam(k: string, v: string, rest: string)
    requires NUL !in k && NUL !in v
    ensures ReadParams(PrintParam(k, v) + ("}" + rest)) == Some((map[k := v], rest))
  {
    ReadPrintedParam(k, v, "}" + rest);
    ParamHead(k, v, "}" + rest);
    assert ("}" + rest)[1..] == rest;
  }

  lemma ReadNextParam(k: string, v: string, tail: string, params: Params, rest: string)
    requires NUL !in k && NUL !in v && !HasPrefix(tail, "}")
    requires ReadParams(tail) == Some((params, rest))
    ensures ReadParams(PrintParam(k, v) + ("," + tail)) == Some((map[k := v] + params, rest))
  {
    ReadPrintedParam(k, v, "," + tail);
    ParamHead(k, v, "," + tail);
    assert ("," + tail)[1..] == tail;
  }

  function Restrict(keys: seq<string>, params: Params): Params
    requires forall k | k in keys :: k in params
  {
    map k | k in keys :: params[k]
  }

  lemma ParamTextsHead(keys: seq<string>, params: Params, rest: string)
    requires keys != [] && forall k | k in keys :: k in params
    ensures !HasPrefix(Join(ParamTexts(keys, params), ",") + rest, "}")
  {
    var texts := ParamTexts(keys, params);
    assert texts[0][0] == '[';
    JoinFirst(texts, ",");
    assert (Join(texts, ",") + rest)[0] == '[';
  }

  lemma PrintParamsCons(k: string, others: seq<string>, params: Params, tail: string)
    requires k in params && forall key | key in others :: key in params
    ensures Join(ParamTexts([k] + others, params), ",") + tail ==
      PrintParam(k, params[k]) + (if others == [] then tail else "," + (Join(ParamTexts(others, params), ",") + tail))
  {
    var texts := ParamTexts([k] + others, params);
    assert texts == [PrintParam(k, params[k])] + ParamTexts(others, params);
    assert texts[1..] == ParamTexts(others, params);
    if others != [] {
      JoinHead(texts, ",", tail);
    }
  }

  lemma RestrictCons(k: string, others: seq<string>, params: Params)
    requires k in params && k !in others && forall key | key in others :: key in params
    ensures Restrict([k] + others, params) == map[k := params[k]] + Restrict(others, params)
    ensures others == [] ==> Restrict([k] + others, params) == map[k := params[k]]
  {}

  lemma ReadPrintedStep(k: string, others: seq<string>, params: Params, rest: string)
    requires k in params && k !in others && forall key | key in others :: key in params
    requires NUL !in k && NUL !in params[k]
    requires ReadParams(Join(ParamTexts(others, params), ",") + ("}" + rest)) == Some((Restrict(others, params), rest))
    ensures ReadParams(Join(ParamTexts([k] + others, params), ",") + ("}" + rest))
         == Some((Restrict([k] + others, params), rest))
  {
    PrintParamsCons(k, others, params, "}" + rest);
    RestrictCons(k, others, params);
    if others == [] {
      ReadLastParam(k, params[k], rest);
    } else {
      ParamTextsHead(others, params, "}" + rest);
      ReadNextParam(k, params[k], Join(ParamTexts(others, params), ",") + ("}" + rest), Restrict(others, params), rest);
    }
  }

  lemma {:induction false} ReadPrintedParams(keys: seq<string>, params: Params, rest: string)
    requires forall k | k in keys :: k in params && NUL !in k && NUL !in params[k]
    requires forall i, j | 0 <= i < j < |keys| :: keys[i] != keys[j]
    ensures ReadParams(Join(ParamTexts(keys, params), ",") + ("}" + rest)) == Some((Restrict(keys, params), rest))
  {
    if keys == [] {
      NothingPrinted(params, rest);
    } else {
      var k, others := keys[0], keys[1..];
      assert keys == [k] + others;
      assert k in keys && k !in others;
      ReadPrintedParams(others, params, rest);
      ReadPrintedStep(k, others, params, rest);
    }
  }

  lemma NothingPrinted(params: Params, rest: string)
    ensures ReadParams(Join(ParamTexts([], params), ",") + ("}" + rest)) == Some((Restrict([], params), rest))
  {
    assert Join(ParamTexts([], params), ",") + ("}" + rest) == "}" + rest;
    assert ("}" + rest)[1..] == rest;
  }

  lemma SortedListIsDistinct(keys: seq<string>, params: Params)
    requires IsSortedListOf(keys, params.Keys)
    ensures forall i, j | 0 <= i < j < |keys| :: keys[i] != keys[j]
    ensures Restrict(keys, params) == params
  {
    forall i, j | 0 <= i < j < |keys| ensures keys[i] != keys[j] {
      LessIsTotal(keys[i], keys[j]);
    }
  }

  lemma EncodedHasNoNul(raw: Params)
    ensures forall k | k in raw :: NUL !in EncodeLoginParams(raw)[k]
  {
    forall k | k in raw ensures NUL !in EncodeLoginParams(raw)[k] {
      EscapedValueIsFieldText(raw[k]);
    }
  }

  lemma AfterOpeningBracket(body: string, rest: string)
    ensures Expect("{" + body + "}" + rest, "{") == Some(body + ("}" + rest))
  {
    assert "{" + body + "}" + rest == "{" + (body + ("}" + rest));
    ExpectFound("{", body + ("}" + rest));
  }

  /** The printed login parameters read back as each key with its encoded value. */
  lemma PrintedLoginParamsReadBack(keys: seq<string>, raw: Params, rest: string)
    requires IsSortedListOf(keys, raw.Keys)
    requires forall k | k in raw :: NUL !in k
    ensures ReadParamTable(PrintParams(keys, EncodeLoginParams(raw)) + rest) == Some((EncodeLoginParams(raw), rest))
  {
    var encoded := EncodeLoginParams(raw);
    EncodedHasNoNul(raw);
    SortedListIsDistinct(keys, encoded);
    ReadPrintedParams(keys, encoded, rest);
    AfterOpeningBracket(Join(ParamTexts(keys, encoded), ","), rest);
  }

  /** Two runs print the same text. */
  lemma PrintedLoginParamsAreDeterministic(a: seq<string>, b: seq<string>, raw: Params)
    requires IsSortedListOf(a, raw.Keys) && IsSortedListOf(b, raw.Keys)
    ensures PrintParams(a, EncodeLoginParams(raw)) == PrintParams(b, EncodeLoginParams(raw))
  {
    SortedListIsUnique(a, b, raw.Keys);
  }
}
