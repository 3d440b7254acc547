/** Query strings as the Lua filter reads and writes them. */
module QueryString {
  import opened GoStrings

  type Params = map<string, string>

  predicate IsFieldChar(c: char) {
    c !in "&=?"
  }

  /** Text without the characters that delimit query fields. */
  predicate IsFieldText(s: string) {
    forall c | c in s :: IsFieldChar(c)
  }

  predicate IsField(s: string) {
    s != "" && IsFieldText(s)
  }

  // ----- locations

  /** The text before the first `?`. */
  function Base(loc: string): string {
    if loc == "" || loc[0] == '?' then "" else [loc[0]] + Base(loc[1..])
  }

  /** The text after the first `?`. */
  function Query(loc: string): string {
    if loc == "" then "" else if loc[0] == '?' then loc[1..] else Query(loc[1..])
  }

  lemma {:induction false} BaseAndQuery(base: string, query: string)
    requires '?' !in base
    ensures Base(base) == base && Query(base) == ""
    ensures Base(base + "?" + query) == base && Query(base + "?" + query) == query
  {
    var loc := base + "?" + query;
    if base == "" {
      assert loc[1..] == query;
    } else {
      assert base[0] in base && loc[0] == base[0];
      BaseAndQuery(base[1..], query);
      assert loc[1..] == base[1..] + "?" + query;
      assert base == [base[0]] + base[1..];
    }
  }

  lemma {:induction false} BaseHasNoQuestionMark(loc: string)
    ensures '?' !in Base(loc)
  {
    if loc != "" && loc[0] != '?' {
      BaseHasNoQuestionMark(loc[1..]);
    }
  }

  // ----- reading pairs

  /** The longest run of field characters at the head of a text. */
  function FieldRun(s: string): (n: nat)
    ensures n <= |s|
    ensures IsFieldText(s[..n])
    ensures n == |s| || !IsFieldChar(s[n])
  {
    if s == "" || !IsFieldChar(s[0]) then 0
    else
      var n := 1 + FieldRun(s[1..]);
      assert s[..n] == [s[0]] + s[1..][..n - 1];
      n
  }

  /** The matches of `([^&=?]+)=([^&=?]+)`, left to right: a key and a value run joined by `=`, or
      else the scan moves on by one character. */
  function Pairs(s: string): seq<(string, string)>
    decreases |s|
  {
    if s == "" then []
    else
      var k := FieldRun(s);
      if k > 0 && k < |s| && s[k] == '=' && FieldRun(s[k + 1..]) > 0 then
        var v := FieldRun(s[k + 1..]);
        [(s[..k], s[k + 1..][..v])] + Pairs(s[k + 1..][v..])
      else Pairs(s[1..])
  }

  /** Later pairs override earlier ones. */
  function ToParams(pairs: seq<(string, string)>): Params {
    if pairs == [] then map[]
    else ToParams(pairs[..|pairs| - 1])[pairs[|pairs| - 1].0 := pairs[|pairs| - 1].1]
  }

  function QueryParams(query: string): Params {
    ToParams(Pairs(query))
  }

  lemma {:induction false} PairsAreFields(s: string)
    ensures forall pair | pair in Pairs(s) :: IsField(pair.0) && IsField(pair.1)
    decreases |s|
  {
    if s != "" {
      var k := FieldRun(s);
      if k > 0 && k < |s| && s[k] == '=' && FieldRun(s[k + 1..]) > 0 {
        PairsAreFields(s[k + 1..][FieldRun(s[k + 1..])..]);
      } else {
        PairsAreFields(s[1..]);
      }
    }
  }

  lemma {:induction false} ToParamsFromPairs(pairs: seq<(string, string)>)
    ensures forall k | k in ToParams(pairs) :: (k, ToParams(pairs)[k]) in pairs
  {
    if pairs != [] {
      ToParamsFromPairs(pairs[..|pairs| - 1]);
    }
  }

  predicate AllFields(params: Params) {
    forall k | k in params :: IsField(k) && IsField(params[k])
  }

  lemma QueryParamsAreFields(query: string)
    ensures AllFields(QueryParams(query))
  {
    PairsAreFields(query);
    ToParamsFromPairs(Pairs(query));
  }

  // ----- writing pairs

  ghost predicate IsOrderOf(order: seq<string>, keys: set<string>) {
    && (forall k :: k in order <==> k in keys)
    && forall i, j | 0 <= i < j < |order| :: order[i] != order[j]
  }

  function Assignments(order: seq<string>, params: Params): (texts: seq<string>)
    requires forall k | k in order :: k in params
    ensures |texts| == |order|
    ensures forall i | 0 <= i < |order| :: texts[i] == order[i] + "=" + params[order[i]]
  {
    seq(|order|, i requires 0 <= i < |order| => assert order[i] in order; order[i] + "=" + params[order[i]])
  }

  /** `key=value` texts joined by `&`, in the given order. */
  function WriteQuery(order: seq<string>, params: Params): string
    requires forall k | k in order :: k in params
  {
    Join(Assignments(order, params), "&")
  }

  lemma {:induction false} FieldRunOf(field: string, rest: string)
    requires IsFieldText(field) && (rest == "" || !IsFieldChar(rest[0]))
    ensures FieldRun(field + rest) == |field|
  {
    if field == "" {
      assert field + rest == rest;
    } else {
      assert field[0] in field;
      assert (field + rest)[1..] == field[1..] + rest;
      FieldRunOf(field[1..], rest);
    }
  }

  lemma AssignmentParts(k: string, v: string, rest: string)
    ensures var s := k + "=" + v + rest;
      && s == k + ("=" + v + rest) && s[..|k|] == k && s[|k|] == '=' && s[|k| + 1..] == v + rest
    ensures (v + rest)[..|v|] == v && (v + rest)[|v|..] == rest
  {}

  lemma PairsUnfold(s: string, k: nat, v: nat)
    requires s != "" && k == FieldRun(s) && 0 < k < |s| && s[k] == '='
    requires v == FieldRun(s[k + 1..]) && v > 0
    ensures Pairs(s) == [(s[..k], s[k + 1..][..v])] + Pairs(s[k + 1..][v..])
  {}

  lemma PairsOfAssignment(k: string, v: string, rest: string)
    requires IsField(k) && IsField(v) && (rest == "" || !IsFieldChar(rest[0]))
    ensures Pairs(k + "=" + v + rest) == [(k, v)] + Pairs(rest)
  {
    AssignmentParts(k, v, rest);
    FieldRunOf(k, "=" + v + rest);
    FieldRunOf(v, rest);
    PairsUnfold(k + "=" + v + rest, |k|, |v|);
  }

  /** An assignment without a value yields no pair. */
  lemma {:induction false} PairsOfEmptyAssignment(k: string, rest: string)
    requires IsFieldText(k) && (rest == "" || rest[0] == '&')
    ensures Pairs(k + "=" + rest) == Pairs(rest)
  {
    var s := k + "=" + rest;
    assert s == k + ("=" + rest);
    FieldRunOf(k, "=" + rest);
    assert s[|k| + 1..] == rest;
    if k == "" {
      assert s[1..] == rest;
    } else {
      assert s[1..] == k[1..] + "=" + rest;
      PairsOfEmptyAssignment(k[1..], rest);
    }
  }

  /** The pairs of an order whose value is not empty. */
  function NonEmptyPairs(order: seq<string>, params: Params): seq<(string, string)>
    requires forall k | k in order :: k in params
  {
    if order == [] then []
    else
      (if params[order[0]] != "" then [(order[0], params[order[0]])] else []) + NonEmptyPairs(order[1..], params)
  }

  lemma WriteQueryCons(order: seq<string>, params: Params)
    requires order != [] && forall k | k in order :: k in params
    ensures var others := order[1..];
      WriteQuery(order, params) ==
        order[0] + "=" + params[order[0]] + (if others == [] then "" else "&" + WriteQuery(others, params))
  {
    assert Assignments(order, params)[1..] == Assignments(order[1..], params);
  }

  lemma PairsAfterSeparator(query: string)
    ensures Pairs("&" + query) == Pairs(query)
  {
    assert ("&" + query)[1..] == query;
  }

  lemma PairsOfAnyAssignment(k: string, v: string, rest: string)
    requires IsField(k) && IsFieldText(v) && (rest == "" || rest[0] == '&')
    ensures Pairs(k + "=" + v + rest) == (if v != "" then [(k, v)] else []) + Pairs(rest)
  {
    if v == "" {
      assert k + "=" + v + rest == k + "=" + rest;
      PairsOfEmptyAssignment(k, rest);
    } else {
      PairsOfAssignment(k, v, rest);
    }
  }

  lemma {:induction false} PairsOfWrittenQuery(order: seq<string>, params: Params)
    requires forall k | k in order :: k in params && IsField(k) && IsFieldText(params[k])
    ensures Pairs(WriteQuery(order, params)) == NonEmptyPairs(order, params)
  {
    if order != [] {
      var others := order[1..];
      assert order[0] in order;
      PairsOfWrittenQuery(others, params);
      PairsAfterSeparator(WriteQuery(others, params));
      WriteQueryCons(order, params);
      PairsOfAnyAssignment(order[0], params[order[0]], if others == [] then "" else "&" + WriteQuery(others, params));
    }
  }

  // ----- writing then reading

  lemma {:induction false} ToParamsCons(pair: (string, string), pairs: seq<(string, string)>)
    ensures ToParams([pair] + pairs) == map[pair.0 := pair.1] + ToParams(pairs)
  {
    var all := [pair] + pairs;
    if pairs == [] {
      assert all[..0] == [];
    } else {
      assert all[..|all| - 1] == [pair] + pairs[..|pairs| - 1];
      ToParamsCons(pair, pairs[..|pairs| - 1]);
    }
  }

  function WithValue(params: Params): Params {
    map k | k in params && params[k] != "" :: params[k]
  }

  /** The parameters of an order that have a value. */
  function Valued(order: seq<string>, params: Params): Params
    requires forall k | k in order :: k in params
  {
    map k | k in order && params[k] != "" :: params[k]
  }

  lemma ValuedCons(k: string, others: seq<string>, params: Params)
    requires k in params && k !in others && forall key | key in others :: key in params
    ensures Valued([k] + others, params) ==
      if params[k] != "" then map[k := params[k]] + Valued(others, params) else Valued(others, params)
  {}

  lemma {:induction false} ParamsOfNonEmptyPairs(order: seq<string>, params: Params)
    requires forall k | k in order :: k in params
    requires forall i, j | 0 <= i < j < |order| :: order[i] != order[j]
    ensures ToParams(NonEmptyPairs(order, params)) == Valued(order, params)
  {
    if order != [] {
      var k, others := order[0], order[1..];
      ParamsOfNonEmptyPairs(others, params);
      assert order == [k] + others && k !in others;
      ValuedCons(k, others, params);
      if params[k] != "" {
        ToParamsCons((k, params[k]), NonEmptyPairs(others, params));
      } else {
        assert NonEmptyPairs(order, params) == NonEmptyPairs(others, params);
      }
    }
  }

  /** In whatever order parameters are written, the query reads back as the parameters that have
      a value; so as all of them if and only if none is empty. */
  lemma WrittenQueryReadsBack(order: seq<string>, params: Params)
    requires IsOrderOf(order, params.Keys)
    requires forall k | k in params :: IsField(k) && IsFieldText(params[k])
    ensures QueryParams(WriteQuery(order, params)) == WithValue(params)
    ensures QueryParams(WriteQuery(order, params)) == params <==> forall k | k in params :: params[k] != ""
  {
    PairsOfWrittenQuery(order, params);
    ParamsOfNonEmptyPairs(order, params);
    var read := QueryParams(WriteQuery(order, params));
    assert read == WithValue(params);
    if k :| k in params && params[k] == "" {
      assert k !in read;
    }
  }

  lemma WrittenQueryIsEmpty(order: seq<string>, params: Params)
    requires IsOrderOf(order, params.Keys)
    ensures WriteQuery(order, params) == "" <==> params == map[]
  {
    if params != map[] {
      var k :| k in params;
      assert k in order;
      JoinFirst(Assignments(order, params), "&");
    } else {
      assert forall i | 0 <= i < |order| :: order[i] in order;
    }
  }
}
