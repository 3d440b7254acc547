/** How a query string is read independently of the Lua filter: fields between `&`, each split at its
    first `=`. When the filter's own reading agrees with it. */
module StandardQuery {
  import opened GoStrings
  import opened QueryString

  /** Every key with all its values, in order. */
  type Values = map<string, seq<string>>

  function KeyOf(field: string): string {
    if field == "" || field[0] == '=' then "" else [field[0]] + KeyOf(field[1..])
  }

  /** A field without `=` has the empty value. */
  function ValueOf(field: string): string {
    if field == "" then "" else if field[0] == '=' then field[1..] else ValueOf(field[1..])
  }

  function NonEmpty(parts: seq<string>): seq<string> {
    if parts == [] then [] else (if parts[0] == "" then [] else [parts[0]]) + NonEmpty(parts[1..])
  }

  function FieldsOf(query: string): seq<string> {
    NonEmpty(Split(query, '&'))
  }

  function ValuesOfKey(values: Values, key: string): seq<string> {
    if key in values then values[key] else []
  }

  function Collect(fields: seq<string>): Values {
    if fields == [] then map[]
    else
      var last := fields[|fields| - 1];
      var before := Collect(fields[..|fields| - 1]);
      before[KeyOf(last) := ValuesOfKey(before, KeyOf(last)) + [ValueOf(last)]]
  }

  function QueryValues(query: string): Values {
    Collect(FieldsOf(query))
  }

  /** Parameters with one value per key. */
  function Singles(params: Params): Values {
    map k | k in params :: [params[k]]
  }

  /** `key=value` with nothing empty and no further delimiter. */
  predicate IsAssignment(field: string) {
    IsField(KeyOf(field)) && IsField(ValueOf(field))
  }

  predicate KeysDiffer(fields: seq<string>) {
    forall i, j | 0 <= i < j < |fields| :: KeyOf(fields[i]) != KeyOf(fields[j])
  }

  /** Distinct, well-formed pairs. */
  predicate IsWellFormed(query: string) {
    var fields := FieldsOf(query);
    (forall field | field in fields :: IsAssignment(field)) && KeysDiffer(fields)
  }

  // ----- one field

  lemma {:induction false} KeyAndValue(k: string, v: string)
    requires '=' !in k
    ensures KeyOf(k + "=" + v) == k && ValueOf(k + "=" + v) == v
  {
    var field := k + "=" + v;
    if k == "" {
      assert field[1..] == v;
    } else {
      assert k[0] in k && field[0] == k[0];
      assert field[1..] == k[1..] + "=" + v;
      KeyAndValue(k[1..], v);
      assert k == [k[0]] + k[1..];
    }
  }

  lemma {:induction false} FieldText(field: string)
    requires ValueOf(field) != ""
    ensures field == KeyOf(field) + "=" + ValueOf(field)
  {
    if field[0] != '=' {
      FieldText(field[1..]);
      assert field == [field[0]] + field[1..];
    }
  }

  // ----- all fields

  lemma {:induction false} CollectedKeys(fields: seq<string>, k: string)
    ensures k in Collect(fields) <==> exists i | 0 <= i < |fields| :: KeyOf(fields[i]) == k
    ensures k in Collect(fields) ==> |Collect(fields)[k]| >= 1
  {
    if fields != [] {
      var init := fields[..|fields| - 1];
      CollectedKeys(init, k);
      if i :| 0 <= i < |fields| && KeyOf(fields[i]) == k {
        if i < |init| { assert init[i] == fields[i]; }
      }
      if i :| 0 <= i < |init| && KeyOf(init[i]) == k {
        assert fields[i] == init[i];
      }
    }
  }

  /** A key that occurs twice has several values. */
  lemma {:induction false} RepeatedKey(fields: seq<string>, i: nat, j: nat)
    requires i < j < |fields| && KeyOf(fields[i]) == KeyOf(fields[j])
    ensures KeyOf(fields[i]) in Collect(fields) && |Collect(fields)[KeyOf(fields[i])]| >= 2
  {
    var init, k := fields[..|fields| - 1], KeyOf(fields[i]);
    if j < |init| {
      assert init[i] == fields[i] && init[j] == fields[j];
      RepeatedKey(init, i, j);
    } else {
      assert init[i] == fields[i];
      CollectedKeys(init, k);
    }
  }

  lemma LastKeyIsNew(fields: seq<string>)
    requires fields != [] && KeysDiffer(fields)
    ensures KeyOf(fields[|fields| - 1]) !in Collect(fields[..|fields| - 1])
    ensures KeysDiffer(fields[..|fields| - 1])
  {
    var n := |fields| - 1;
    var init, last := fields[..n], fields[n];
    assert forall i | 0 <= i < n :: init[i] == fields[i];
    CollectedKeys(init, KeyOf(last));
  }

  /** With different keys, each key has the value of its field. */
  lemma {:induction false} CollectDifferent(fields: seq<string>)
    requires KeysDiffer(fields)
    ensures forall i | 0 <= i < |fields| ::
      KeyOf(fields[i]) in Collect(fields) && Collect(fields)[KeyOf(fields[i])] == [ValueOf(fields[i])]
  {
    if fields != [] {
      var n := |fields| - 1;
      var init, last := fields[..n], fields[n];
      LastKeyIsNew(fields);
      CollectDifferent(init);
      forall i | 0 <= i < |fields|
        ensures KeyOf(fields[i]) in Collect(fields) && Collect(fields)[KeyOf(fields[i])] == [ValueOf(fields[i])]
      {
        if i < n {
          assert init[i] == fields[i];
          assert KeyOf(fields[i]) != KeyOf(last);
        }
      }
    }
  }

  // ----- the filter's reading of well-formed fields

  function PairOf(field: string): (string, string) {
    (KeyOf(field), ValueOf(field))
  }

  function PairsOf(fields: seq<string>): (pairs: seq<(string, string)>)
    ensures |pairs| == |fields|
    ensures forall i | 0 <= i < |fields| :: pairs[i] == PairOf(fields[i])
  {
    seq(|fields|, i requires 0 <= i < |fields| => PairOf(fields[i]))
  }

  lemma PairsOfField(field: string, rest: string)
    requires field == "" || IsAssignment(field)
    requires rest == "" || rest[0] == '&'
    ensures Pairs(field + rest) == PairsOf(NonEmpty([field])) + Pairs(rest)
  {
    assert [field][1..] == [];
    if field == "" {
      assert field + rest == rest;
      assert NonEmpty([field]) == [];
    } else {
      FieldText(field);
      PairsOfAssignment(KeyOf(field), ValueOf(field), rest);
      assert NonEmpty([field]) == [field];
      assert PairsOf([field]) == [PairOf(field)];
    }
  }

  lemma PairsOfCons(part: string, others: seq<string>)
    ensures PairsOf(NonEmpty([part] + others)) == PairsOf(NonEmpty([part])) + PairsOf(NonEmpty(others))
  {
    assert ([part] + others)[1..] == others && [part][1..] == [];
  }

  lemma {:induction false} PairsOfParts(parts: seq<string>)
    requires parts != [] && forall part | part in parts :: part == "" || IsAssignment(part)
    ensures Pairs(Join(parts, "&")) == PairsOf(NonEmpty(parts))
  {
    var part, others := parts[0], parts[1..];
    assert parts == [part] + others && part in parts;
    if others == [] {
      PairsOfField(part, "");
      assert part + "" == part;
      assert parts == [part] && Join(parts, "&") == part;
      assert Pairs("") == [];
    } else {
      PairsOfParts(others);
      PairsAfterSeparator(Join(others, "&"));
      PairsOfField(part, "&" + Join(others, "&"));
      ConcatAssociates(part, "&", Join(others, "&"));
      PairsOfCons(part, others);
    }
  }

  lemma {:induction false} InNonEmpty(parts: seq<string>, part: string)
    ensures part in NonEmpty(parts) <==> part in parts && part != ""
  {
    if parts != [] {
      InNonEmpty(parts[1..], part);
      assert parts == [parts[0]] + parts[1..];
    }
  }

  lemma PairsOfWellFormed(query: string)
    requires IsWellFormed(query)
    ensures Pairs(query) == PairsOf(FieldsOf(query))
  {
    var parts := Split(query, '&');
    forall part | part in parts ensures part == "" || IsAssignment(part) {
      InNonEmpty(parts, part);
    }
    JoinSplit(query, '&');
    PairsOfParts(parts);
  }

  lemma ToParamsSnoc(fields: seq<string>)
    requires fields != []
    ensures var n := |fields| - 1;
      ToParams(PairsOf(fields)) == ToParams(PairsOf(fields[..n]))[KeyOf(fields[n]) := ValueOf(fields[n])]
  {
    var n := |fields| - 1;
    assert PairsOf(fields)[..n] == PairsOf(fields[..n]);
  }

  lemma {:induction false} ParamsOfDifferent(fields: seq<string>)
    requires KeysDiffer(fields)
    ensures Singles(ToParams(PairsOf(fields))) == Collect(fields)
  {
    if fields != [] {
      var n := |fields| - 1;
      var init, last := fields[..n], fields[n];
      LastKeyIsNew(fields);
      ParamsOfDifferent(init);
      ToParamsSnoc(fields);
      SinglesUpdate(ToParams(PairsOf(init)), KeyOf(last), ValueOf(last));
      assert [] + [ValueOf(last)] == [ValueOf(last)];
    }
  }

  lemma SinglesUpdate(params: Params, k: string, v: string)
    ensures Singles(params[k := v]) == Singles(params)[k := [v]]
  {}

  // ----- the two readings

  /** What the filter reads, without some keys and overridden, is the query's own reading, likewise. */
  ghost predicate ReadsTheSame(query: string, removed: set<string>, over: Params) {
    Singles((QueryParams(query) - removed) + over) == (QueryValues(query) - removed) + Singles(over)
  }

  lemma KeptKey(query: string, removed: set<string>, over: Params, k: string)
    requires k in QueryValues(query) && k !in removed && k !in over
    requires ReadsTheSame(query, removed, over)
    ensures k in QueryParams(query) && QueryValues(query)[k] == [QueryParams(query)[k]]
    ensures IsField(k) && IsField(QueryParams(query)[k])
  {
    var read, params := QueryValues(query), (QueryParams(query) - removed) + over;
    assert k in (read - removed) + Singles(over) && ((read - removed) + Singles(over))[k] == read[k];
    assert k in Singles(params) && Singles(params)[k] == [params[k]];
    QueryParamsAreFields(query);
  }

  predicate HasOneField(values: Values, k: string) {
    IsField(k) && k in values && |values[k]| == 1 && IsField(values[k][0])
  }

  lemma OneFieldEach(fields: seq<string>)
    requires forall i | 0 <= i < |fields| :: HasOneField(Collect(fields), KeyOf(fields[i]))
    ensures KeysDiffer(fields) && forall field | field in fields :: IsAssignment(field)
  {
    forall i, j | 0 <= i < j < |fields| ensures KeyOf(fields[i]) != KeyOf(fields[j]) {
      assert HasOneField(Collect(fields), KeyOf(fields[i]));
      if KeyOf(fields[i]) == KeyOf(fields[j]) { RepeatedKey(fields, i, j); }
    }
    CollectDifferent(fields);
    forall field | field in fields ensures IsAssignment(field) {
      var i :| 0 <= i < |fields| && fields[i] == field;
      assert HasOneField(Collect(fields), KeyOf(fields[i]));
    }
  }

  /** Then every field is a well-formed one, and the only one of its key. */
  lemma SameReadingIsWellFormed(query: string, removed: set<string>, over: Params)
    requires removed !! QueryValues(query).Keys && over.Keys !! QueryValues(query).Keys
    requires ReadsTheSame(query, removed, over)
    ensures IsWellFormed(query)
  {
    var fields := FieldsOf(query);
    forall i | 0 <= i < |fields| ensures HasOneField(Collect(fields), KeyOf(fields[i])) {
      CollectedKeys(fields, KeyOf(fields[i]));
      KeptKey(query, removed, over, KeyOf(fields[i]));
    }
    OneFieldEach(fields);
  }

  lemma WellFormedReadsTheSame(query: string)
    requires IsWellFormed(query)
    ensures Singles(QueryParams(query)) == QueryValues(query)
  {
    PairsOfWellFormed(query);
    ParamsOfDifferent(FieldsOf(query));
  }

  /** The filter reads a query as it is meant if and only if its fields are distinct, well-formed
      pairs. */
  lemma ReadingsAgreeIffWellFormed(query: string)
    ensures Singles(QueryParams(query)) == QueryValues(query) <==> IsWellFormed(query)
  {
    if Singles(QueryParams(query)) == QueryValues(query) {
      assert (QueryParams(query) - {}) + map[] == QueryParams(query);
      assert (QueryValues(query) - {}) + Singles(map[]) == QueryValues(query);
      assert ReadsTheSame(query, {}, map[]);
      SameReadingIsWellFormed(query, {}, map[]);
    }
    if IsWellFormed(query) {
      WellFormedReadsTheSame(query);
    }
  }

  // ----- fields of their own

  lemma {:induction false} FieldRunBefore(a: string, b: string)
    ensures FieldRun(a + "&" + b) == FieldRun(a)
  {
    var s := a + "&" + b;
    if a == "" {
      assert s[0] == '&';
    } else {
      assert s[0] == a[0] && s[1..] == a[1..] + "&" + b;
      FieldRunBefore(a[1..], b);
    }
  }

  lemma DropBefore(a: string, b: string, n: nat)
    requires n <= |a|
    ensures (a + "&" + b)[n..] == a[n..] + "&" + b
  {}

  /** The script reads the parts around a `&` on their own. */
  lemma {:induction false} PairsOfBoth(a: string, b: string)
    ensures Pairs(a + "&" + b) == Pairs(a) + Pairs(b)
    decreases |a|
  {
    var s := a + "&" + b;
    if a == "" {
      assert s == "&" + b;
      PairsAfterSeparator(b);
    } else {
      var k := FieldRun(a);
      FieldRunBefore(a, b);
      DropBefore(a, b, 1);
      if k > 0 && k < |a| && a[k] == '=' {
        DropBefore(a, b, k + 1);
        FieldRunBefore(a[k + 1..], b);
        var v := FieldRun(a[k + 1..]);
        if v > 0 {
          PairsOfFirst(a, b, k, v);
        } else {
          PairsOfBoth(a[1..], b);
        }
      } else {
        PairsOfBoth(a[1..], b);
      }
    }
  }

  lemma TakeBefore(a: string, b: string, n: nat)
    requires n <= |a|
    ensures (a + "&" + b)[..n] == a[..n]
  {}

  lemma FirstPairBefore(a: string, b: string, k: nat, v: nat)
    requires k == FieldRun(a) && 0 < k < |a| && a[k] == '='
    requires v == FieldRun(a[k + 1..]) && v > 0
    ensures var s := a + "&" + b;
      && k == FieldRun(s) && s[k] == '=' && s[..k] == a[..k]
      && v == FieldRun(s[k + 1..]) && s[k + 1..][..v] == a[k + 1..][..v]
      && s[k + 1..][v..] == a[k + 1..][v..] + "&" + b
  {
    FieldRunBefore(a, b);
    DropBefore(a, b, k + 1);
    TakeBefore(a, b, k);
    FieldRunBefore(a[k + 1..], b);
    DropBefore(a[k + 1..], b, v);
    TakeBefore(a[k + 1..], b, v);
  }

  lemma ConsConcat<T>(x: T, a: seq<T>, b: seq<T>)
    ensures [x] + (a + b) == ([x] + a) + b
  {}

  lemma PairsOfFirst(a: string, b: string, k: nat, v: nat)
    requires k == FieldRun(a) && 0 < k < |a| && a[k] == '='
    requires v == FieldRun(a[k + 1..]) && v > 0
    ensures Pairs(a + "&" + b) == Pairs(a) + Pairs(b)
    decreases |a|, 0
  {
    var rest := a[k + 1..][v..];
    FirstPairBefore(a, b, k, v);
    PairsUnfold(a, k, v);
    PairsUnfold(a + "&" + b, k, v);
    PairsOfBoth(rest, b);
    ConsConcat((a[..k], a[k + 1..][..v]), Pairs(rest), Pairs(b));
  }

  /** What the script reads in each part. */
  function PartPairs(parts: seq<string>): seq<(string, string)> {
    if parts == [] then [] else Pairs(parts[0]) + PartPairs(parts[1..])
  }

  lemma {:induction false} PairsByPart(parts: seq<string>)
    requires parts != []
    ensures Pairs(Join(parts, "&")) == PartPairs(parts)
  {
    if |parts| == 1 {
      assert PartPairs(parts[1..]) == [];
    } else {
      PairsOfBoth(parts[0], Join(parts[1..], "&"));
      PairsByPart(parts[1..]);
    }
  }

  lemma {:induction false} ToParamsConcat(a: seq<(string, string)>, b: seq<(string, string)>)
    ensures ToParams(a + b) == ToParams(a) + ToParams(b)
  {
    if b == [] {
      assert a + b == a;
    } else {
      var n := |b| - 1;
      ToParamsConcat(a, b[..n]);
      assert (a + b)[..|a| + n] == a + b[..n];
    }
  }

  /** The last part that spells a key decides about it. */
  lemma {:induction false} LastPartDecides(parts: seq<string>, k: string) returns (i: nat)
    requires k in ToParams(PartPairs(parts))
    ensures i < |parts| && k in QueryParams(parts[i])
    ensures QueryParams(parts[i])[k] == ToParams(PartPairs(parts))[k]
    ensures forall j | i < j < |parts| :: k !in QueryParams(parts[j])
  {
    ToParamsConcat(Pairs(parts[0]), PartPairs(parts[1..]));
    if k in ToParams(PartPairs(parts[1..])) {
      var n := LastPartDecides(parts[1..], k);
      i := n + 1;
      assert forall j | i < j < |parts| :: parts[j] == parts[1..][j - 1];
    } else {
      i := 0;
      forall j | 0 < j < |parts| ensures k !in QueryParams(parts[j]) {
        if k in QueryParams(parts[j]) {
          SpelledKeyIsRead(parts[1..], j - 1, k);
        }
      }
    }
  }

  lemma {:induction false} SpelledKeyIsRead(parts: seq<string>, i: nat, k: string)
    requires i < |parts| && k in QueryParams(parts[i])
    ensures k in ToParams(PartPairs(parts))
  {
    ToParamsConcat(Pairs(parts[0]), PartPairs(parts[1..]));
    if i > 0 {
      SpelledKeyIsRead(parts[1..], i - 1, k);
    }
  }

  lemma {:induction false} EmptyPartsSpellNothing(parts: seq<string>)
    ensures PartPairs(NonEmpty(parts)) == PartPairs(parts)
  {
    if parts != [] {
      EmptyPartsSpellNothing(parts[1..]);
      if parts[0] == "" {
        assert Pairs("") == [];
        assert [] + NonEmpty(parts[1..]) == NonEmpty(parts[1..]);
        assert [] + PartPairs(parts[1..]) == PartPairs(parts[1..]);
      } else {
        assert ([parts[0]] + NonEmpty(parts[1..]))[1..] == NonEmpty(parts[1..]);
      }
    }
  }

  /** The script reads a query field by field. */
  lemma ReadFieldByField(query: string)
    ensures QueryParams(query) == ToParams(PartPairs(FieldsOf(query)))
  {
    JoinSplit(query, '&');
    PairsByPart(Split(query, '&'));
    EmptyPartsSpellNothing(Split(query, '&'));
  }

  lemma PairsOfOneAssignment(field: string)
    requires IsAssignment(field)
    ensures Pairs(field) == [PairOf(field)]
  {
    PairsOfField(field, "");
    FieldText(field);
    assert field + "" == field && [field][1..] == [];
    assert NonEmpty([field]) == [field];
    assert Pairs("") == [];
    assert PairsOf([field]) == [PairOf(field)];
  }

  /** The script reads one parameter in a well-formed field. */
  lemma AssignmentIsRead(field: string)
    requires IsAssignment(field)
    ensures QueryParams(field) == map[KeyOf(field) := ValueOf(field)]
  {
    PairsOfOneAssignment(field);
    ToParamsOne(KeyOf(field), ValueOf(field));
  }

  predicate IsOnlyOneOfItsKey(fields: seq<string>, i: nat)
    requires i < |fields|
  {
    forall j | 0 <= j < |fields| && j != i :: KeyOf(fields[j]) != KeyOf(fields[i])
  }

  /** The last field that spells the key, to the script. */
  predicate IsLastToSpell(fields: seq<string>, i: nat, k: string)
    requires i < |fields|
  {
    k in QueryParams(fields[i]) && forall j | i < j < |fields| :: k !in QueryParams(fields[j])
  }

  /** Apart from the given keys every field is a well-formed pair and the only one of its key; and no
      field of the given keys hides a pair of another key, such as `k=v` in `s=a?k=v`, behind the field
      of that key, unless that says the same. */
  predicate HasFieldsOfTheirOwn(query: string, keys: set<string>) {
    var fields := FieldsOf(query);
    && (forall i | 0 <= i < |fields| && KeyOf(fields[i]) !in keys ::
          IsAssignment(fields[i]) && IsOnlyOneOfItsKey(fields, i))
    && (forall i | 0 <= i < |fields| && KeyOf(fields[i]) in keys ::
          forall k | k in QueryParams(fields[i]) && k !in keys && IsLastToSpell(fields, i, k) ::
            k + "=" + QueryParams(fields[i])[k] in fields)
  }

  /** Then whatever the script reads under another key stands in the query as a field. */
  lemma ReadParamStandsInQuery(query: string, keys: set<string>, k: string)
    requires HasFieldsOfTheirOwn(query, keys) && k in QueryParams(query) && k !in keys
    ensures k + "=" + QueryParams(query)[k] in FieldsOf(query)
  {
    var fields := FieldsOf(query);
    ReadFieldByField(query);
    var i := LastPartDecides(fields, k);
    if KeyOf(fields[i]) !in keys {
      AssignmentIsRead(fields[i]);
      FieldText(fields[i]);
    } else {
      assert IsLastToSpell(fields, i, k);
    }
  }

  lemma LastToSpellIsRead(query: string, i: nat, k: string)
    requires i < |FieldsOf(query)| && IsLastToSpell(FieldsOf(query), i, k)
    ensures k in QueryParams(query) && QueryParams(query)[k] == QueryParams(FieldsOf(query)[i])[k]
  {
    ReadFieldByField(query);
    SpelledKeyIsRead(FieldsOf(query), i, k);
    var j := LastPartDecides(FieldsOf(query), k);
  }

  /** The value of a key with one field. */
  lemma {:induction false} OnlyValue(fields: seq<string>, i: nat)
    requires i < |fields| && IsOnlyOneOfItsKey(fields, i)
    ensures KeyOf(fields[i]) in Collect(fields) && Collect(fields)[KeyOf(fields[i])] == [ValueOf(fields[i])]
  {
    var n, k := |fields| - 1, KeyOf(fields[i]);
    var init := fields[..n];
    assert forall j | 0 <= j < n :: init[j] == fields[j];
    if i < n {
      assert IsOnlyOneOfItsKey(init, i);
      OnlyValue(init, i);
      assert KeyOf(fields[n]) != k;
    } else {
      CollectedKeys(init, k);
      assert [] + [ValueOf(fields[n])] == [ValueOf(fields[n])];
    }
  }

  lemma SingleValueIsOnly(fields: seq<string>, i: nat)
    requires i < |fields| && KeyOf(fields[i]) in Collect(fields) && |Collect(fields)[KeyOf(fields[i])]| == 1
    ensures IsOnlyOneOfItsKey(fields, i) && Collect(fields)[KeyOf(fields[i])] == [ValueOf(fields[i])]
  {
    forall j | 0 <= j < |fields| && j != i ensures KeyOf(fields[j]) != KeyOf(fields[i]) {
      if KeyOf(fields[j]) == KeyOf(fields[i]) {
        if i < j { RepeatedKey(fields, i, j); } else { RepeatedKey(fields, j, i); }
      }
    }
    OnlyValue(fields, i);
  }

  lemma OneFieldIsItsOwn(fields: seq<string>, i: nat)
    requires i < |fields| && HasOneField(Collect(fields), KeyOf(fields[i]))
    ensures IsAssignment(fields[i]) && IsOnlyOneOfItsKey(fields, i)
  {
    SingleValueIsOnly(fields, i);
  }

  lemma OneValueStandsInQuery(fields: seq<string>, k: string, v: string)
    requires k in Collect(fields) && Collect(fields)[k] == [v] && v != ""
    ensures k + "=" + v in fields
  {
    CollectedKeys(fields, k);
    var i :| 0 <= i < |fields| && KeyOf(fields[i]) == k;
    SingleValueIsOnly(fields, i);
    FieldText(fields[i]);
  }

  lemma KeptParam(query: string, removed: set<string>, over: Params, k: string)
    requires ReadsTheSame(query, removed, over)
    requires k in QueryParams(query) && k !in removed && k !in over
    ensures k in QueryValues(query)
  {
    var params := (QueryParams(query) - removed) + over;
    assert k in Singles(params);
    assert k in (QueryValues(query) - removed) + Singles(over);
  }

  lemma OwnFieldReadsTheSame(query: string, keys: set<string>, k: string)
    requires HasFieldsOfTheirOwn(query, keys) && k !in keys
    ensures k in QueryParams(query) <==> k in QueryValues(query)
    ensures k in QueryParams(query) ==> QueryValues(query)[k] == [QueryParams(query)[k]]
  {
    var fields, params := FieldsOf(query), QueryParams(query);
    CollectedKeys(fields, k);
    if k in QueryValues(query) {
      var i :| 0 <= i < |fields| && KeyOf(fields[i]) == k;
      AssignmentIsRead(fields[i]);
      ReadFieldByField(query);
      SpelledKeyIsRead(fields, i, k);
    }
    if k in params {
      ReadParamStandsInQuery(query, keys, k);
      QueryParamsAreFields(query);
      AssignmentText(k, params[k]);
      var i :| 0 <= i < |fields| && fields[i] == k + "=" + params[k];
      OnlyValue(fields, i);
    }
  }

  /** Exactly when overriding some keys leaves what an independent reader finds, for every query. */
  lemma ReadsTheSameIffFieldsOfTheirOwn(query: string, removed: set<string>, over: Params)
    ensures ReadsTheSame(query, removed, over) <==> HasFieldsOfTheirOwn(query, removed + over.Keys)
  {
    var keys := removed + over.Keys;
    if ReadsTheSame(query, removed, over) {
      var fields := FieldsOf(query);
      forall i | 0 <= i < |fields| && KeyOf(fields[i]) !in keys
        ensures IsAssignment(fields[i]) && IsOnlyOneOfItsKey(fields, i)
      {
        CollectedKeys(fields, KeyOf(fields[i]));
        KeptKey(query, removed, over, KeyOf(fields[i]));
        OneFieldIsItsOwn(fields, i);
      }
      forall i, k | 0 <= i < |fields| && k in QueryParams(fields[i]) && k !in keys && IsLastToSpell(fields, i, k)
        ensures k + "=" + QueryParams(fields[i])[k] in fields
      {
        LastToSpellIsRead(query, i, k);
        KeptParam(query, removed, over, k);
        KeptKey(query, removed, over, k);
        OneValueStandsInQuery(fields, k, QueryParams(query)[k]);
      }
    }
    if HasFieldsOfTheirOwn(query, keys) {
      forall k | k !in keys
        ensures k in QueryParams(query) <==> k in QueryValues(query)
        ensures k in QueryParams(query) ==> QueryValues(query)[k] == [QueryParams(query)[k]]
      {
        OwnFieldReadsTheSame(query, keys, k);
      }
      SameOutside(QueryParams(query), QueryValues(query), removed, over);
    }
  }

  lemma SameOutside(params: Params, values: Values, removed: set<string>, over: Params)
    requires forall k | k !in removed + over.Keys ::
      (k in params <==> k in values) && (k in params ==> values[k] == [params[k]])
    ensures Singles((params - removed) + over) == (values - removed) + Singles(over)
  {}

  // ----- written queries

  lemma {:induction false} NonEmptyOfNonEmpty(parts: seq<string>)
    requires "" !in parts
    ensures NonEmpty(parts) == parts
  {
    if parts != [] {
      assert parts[0] in parts;
      assert parts == [parts[0]] + parts[1..];
      NonEmptyOfNonEmpty(parts[1..]);
    }
  }

  lemma AssignmentText(k: string, v: string)
    requires IsField(k) && IsFieldText(v)
    ensures var field := k + "=" + v;
      field != "" && '&' !in field && KeyOf(field) == k && ValueOf(field) == v
  {
    assert !IsFieldChar('&') && !IsFieldChar('=');
    KeyAndValue(k, v);
  }

  lemma FieldsOfWritten(order: seq<string>, params: Params)
    requires IsOrderOf(order, params.Keys)
    requires forall k | k in params :: IsField(k) && IsFieldText(params[k])
    ensures FieldsOf(WriteQuery(order, params)) == Assignments(order, params)
  {
    var texts := Assignments(order, params);
    forall text | text in texts ensures text != "" && '&' !in text {
      var i :| 0 <= i < |texts| && texts[i] == text;
      assert order[i] in order;
      AssignmentText(order[i], params[order[i]]);
    }
    if texts == [] {
      assert Split("", '&')[1..] == [];
    } else {
      SplitJoin(texts, '&');
      NonEmptyOfNonEmpty(texts);
    }
  }

  function Restricted(order: seq<string>, params: Params): Params
    requires forall k | k in order :: k in params
  {
    map k | k in order :: params[k]
  }

  lemma RestrictedSnoc(order: seq<string>, params: Params)
    requires order != [] && forall k | k in order :: k in params
    ensures var n := |order| - 1;
      Restricted(order, params) == Restricted(order[..n], params)[order[n] := params[order[n]]]
  {
    var n := |order| - 1;
    assert order == order[..n] + [order[n]];
  }

  lemma {:induction false} CollectAssignments(order: seq<string>, params: Params)
    requires forall i, j | 0 <= i < j < |order| :: order[i] != order[j]
    requires forall k | k in order :: k in params && IsField(k) && IsFieldText(params[k])
    ensures Collect(Assignments(order, params)) == Singles(Restricted(order, params))
  {
    if order != [] {
      var n := |order| - 1;
      var init, k := order[..n], order[n];
      assert k in order && k !in init;
      CollectAssignments(init, params);
      assert Assignments(order, params)[..n] == Assignments(init, params);
      AssignmentText(k, params[k]);
      RestrictedSnoc(order, params);
      SinglesUpdate(Restricted(init, params), k, params[k]);
      assert [] + [params[k]] == [params[k]];
    }
  }

  /** A written query reads, independently of the filter, as exactly the parameters. */
  lemma WrittenQueryValues(order: seq<string>, params: Params)
    requires IsOrderOf(order, params.Keys)
    requires forall k | k in params :: IsField(k) && IsFieldText(params[k])
    ensures QueryValues(WriteQuery(order, params)) == Singles(params)
  {
    FieldsOfWritten(order, params);
    CollectAssignments(order, params);
    assert Restricted(order, params) == params;
  }

  // ----- a query that is not read as it is meant

  const PADDED_QUERY := "s=a=="

  /** A value that contains `=` is cut off. */
  lemma PaddedValueIsTruncated()
    ensures QueryParams(PADDED_QUERY) == map["s" := "a"] && QueryValues(PADDED_QUERY) == map["s" := ["a=="]]
  {
    PairsOfPadded();
    ToParamsOne("s", "a");
    PaddedField();
    OneFieldValues("s", "a==");
  }

  lemma ToParamsOne(k: string, v: string)
    ensures ToParams([(k, v)]) == map[k := v]
  {
    assert [(k, v)][..0] == [];
  }

  lemma PaddedField()
    ensures PADDED_QUERY == "s" + "=" + "a=="
  {}

  lemma OneFieldValues(k: string, v: string)
    requires '=' !in k && '&' !in k && '&' !in v
    ensures QueryValues(k + "=" + v) == map[k := [v]]
  {
    var field := k + "=" + v;
    assert field[|k|] == '=';
    assert '&' !in field;
    SplitWithoutSeparator(field, '&');
    NonEmptyOfNonEmpty([field]);
    KeyAndValue(k, v);
    CollectOne(field);
  }

  lemma CollectOne(field: string)
    ensures Collect([field]) == map[KeyOf(field) := [ValueOf(field)]]
  {
    assert [field][..0] == [];
    assert [] + [ValueOf(field)] == [ValueOf(field)];
  }

  lemma PairsOfPadded()
    ensures Pairs(PADDED_QUERY) == [("s", "a")]
  {
    PairsOfAssignment("s", "a", "==");
    assert PADDED_QUERY == "s" + "=" + "a" + "==";
    PairsOfPadding();
  }

  lemma PairsOfPadding()
    ensures Pairs("==") == []
  {
    assert "=="[1..] == "=" && "="[1..] == "";
    assert Pairs("=") == [];
  }
}
