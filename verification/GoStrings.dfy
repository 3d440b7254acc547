/** The operations of Go's `strings` package that the operator builds on.
    A `char` stands for one byte of a Go string. */
module GoStrings {

  predicate HasPrefix(s: string, prefix: string) {
    prefix <= s
  }

  predicate HasSuffix(s: string, suffix: string) {
    |suffix| <= |s| && s[|s| - |suffix|..] == suffix
  }

  function TrimSuffix(s: string, suffix: string): string {
    if HasSuffix(s, suffix) then s[..|s| - |suffix|] else s
  }

  predicate Contains(s: string, sub: string) {
    exists i | 0 <= i <= |s| :: sub <= s[i..]
  }

  predicate ContainsAny(s: string, chars: string) {
    exists c | c in s :: c in chars
  }

  function Count(s: string, c: char): nat {
    if s == "" then 0 else (if s[0] == c then 1 else 0) + Count(s[1..], c)
  }

  /** Replaces the non-overlapping occurrences of `target`, leftmost first. */
  function ReplaceAll(s: string, target: string, repl: string): string
    requires target != ""
    decreases |s|
  {
    if s == "" then ""
    else if target <= s then repl + ReplaceAll(s[|target|..], target, repl)
    else [s[0]] + ReplaceAll(s[1..], target, repl)
  }

  function TrimLeft(s: string, c: char): string {
    if s != "" && s[0] == c then TrimLeft(s[1..], c) else s
  }

  function TrimRight(s: string, c: char): string {
    if s != "" && s[|s| - 1] == c then TrimRight(s[..|s| - 1], c) else s
  }

  function Trim(s: string, c: char): string {
    TrimRight(TrimLeft(s, c), c)
  }

  function Split(s: string, sep: char): (parts: seq<string>)
    ensures parts != []
  {
    if s == "" then [""]
    else
      var rest := Split(s[1..], sep);
      if s[0] == sep then [""] + rest else [[s[0]] + rest[0]] + rest[1..]
  }

  function Join(parts: seq<string>, sep: string): string {
    if parts == [] then ""
    else if |parts| == 1 then parts[0]
    else parts[0] + sep + Join(parts[1..], sep)
  }

  function Repeat(c: char, n: nat): (s: string)
    ensures |s| == n && forall i | 0 <= i < n :: s[i] == c
  {
    seq(n, i => c)
  }

  // ----- replacing

  lemma ReplaceHit(s: string, target: string, repl: string, rest: string)
    requires target != "" && s == target + rest
    ensures ReplaceAll(s, target, repl) == repl + ReplaceAll(rest, target, repl)
  {
    assert s[|target|..] == rest;
  }

  /** Text in which `target` starts nowhere is copied. */
  lemma {:induction false} ReplaceSkip(prefix: string, rest: string, target: string, repl: string)
    requires target != ""
    requires forall i | 0 <= i < |prefix| :: !(target <= (prefix + rest)[i..])
    ensures ReplaceAll(prefix + rest, target, repl) == prefix + ReplaceAll(rest, target, repl)
    decreases |prefix|
  {
    if prefix == "" {
      assert prefix + rest == rest;
    } else {
      var s := prefix + rest;
      assert s[0..] == s;
      assert s[1..] == prefix[1..] + rest;
      forall i | 0 <= i < |prefix[1..]| ensures !(target <= (prefix[1..] + rest)[i..]) {
        assert (prefix[1..] + rest)[i..] == s[i + 1..];
      }
      ReplaceSkip(prefix[1..], rest, target, repl);
      assert prefix == [prefix[0]] + prefix[1..];
    }
  }

  /** Text without the first character of `target` is copied. */
  lemma ReplaceSkipClean(prefix: string, rest: string, target: string, repl: string)
    requires target != "" && target[0] !in prefix
    ensures ReplaceAll(prefix + rest, target, repl) == prefix + ReplaceAll(rest, target, repl)
  {
    forall i | 0 <= i < |prefix| ensures !(target <= (prefix + rest)[i..]) {
      assert (prefix + rest)[i..][0] == prefix[i];
    }
    ReplaceSkip(prefix, rest, target, repl);
  }

  // ----- prefixes, suffixes and substrings

  lemma ConcatAssociates(a: string, b: string, c: string)
    ensures a + b + c == a + (b + c)
  {}

  lemma LastCharacter(s: string, c: char)
    ensures HasSuffix(s, [c]) <==> s != "" && s[|s| - 1] == c
  {
    if s != "" {
      assert s[|s| - 1..] == [s[|s| - 1]];
    }
  }

  lemma SuffixCharacter(s: string, suffix: string, c: char)
    requires c in suffix
    ensures HasSuffix(s, suffix) ==> c in s
  {
    if HasSuffix(s, suffix) {
      assert s == s[..|s| - |suffix|] + suffix;
    }
  }

  lemma SuffixesAgree(s: string, suffix: string, c: char)
    requires suffix != "" && suffix[|suffix| - 1] != c
    ensures HasSuffix(s, [c]) ==> !HasSuffix(s, suffix)
  {
    LastCharacter(s, c);
    if HasSuffix(s, suffix) {
      assert s[|s| - |suffix|..][|suffix| - 1] == s[|s| - 1];
    }
  }

  lemma ContainsInside(before: string, middle: string, after: string, sub: string)
    requires Contains(middle, sub)
    ensures Contains(before + middle + after, sub)
  {
    var i :| 0 <= i <= |middle| && sub <= middle[i..];
    var s := before + middle + after;
    assert s[|before| + i..] == middle[i..] + after;
    assert sub <= s[|before| + i..];
  }

  lemma {:induction false} ContainsInJoin(parts: seq<string>, sep: string, i: nat, sub: string)
    requires i < |parts| && Contains(parts[i], sub)
    ensures Contains(Join(parts, sep), sub)
    decreases |parts|
  {
    if |parts| > 1 {
      var rest := Join(parts[1..], sep);
      if i == 0 {
        ContainsInside("", parts[0], sep + rest, sub);
        assert "" + parts[0] + (sep + rest) == Join(parts, sep);
      } else {
        ContainsInJoin(parts[1..], sep, i - 1, sub);
        ContainsInside(parts[0] + sep, rest, "", sub);
        assert parts[0] + sep + rest + "" == Join(parts, sep);
      }
    }
  }

  // ----- splitting and joining

  lemma {:induction false} SplitWithoutSeparator(s: string, sep: char)
    requires sep !in s
    ensures Split(s, sep) == [s]
  {
    if s != "" {
      SplitWithoutSeparator(s[1..], sep);
      assert s == [s[0]] + s[1..];
    }
  }

  lemma {:induction false} SplitAtSeparator(head: string, tail: string, sep: char)
    requires sep !in head
    ensures Split(head + [sep] + tail, sep) == [head] + Split(tail, sep)
    decreases |head|
  {
    var s := head + [sep] + tail;
    if head == "" {
      assert s[1..] == tail;
    } else {
      assert s[1..] == head[1..] + [sep] + tail;
      SplitAtSeparator(head[1..], tail, sep);
      assert head == [head[0]] + head[1..];
    }
  }

  lemma {:induction false} SplitJoin(parts: seq<string>, sep: char)
    requires parts != [] && forall p | p in parts :: sep !in p
    ensures Split(Join(parts, [sep]), sep) == parts
  {
    var first, rest := parts[0], parts[1..];
    assert parts == [first] + rest;
    if rest == [] {
      SplitWithoutSeparator(first, sep);
    } else {
      SplitJoin(rest, sep);
      SplitAtSeparator(first, Join(rest, [sep]), sep);
    }
  }

  lemma JoinHead(parts: seq<string>, sep: string, tail: string)
    requires |parts| > 1
    ensures Join(parts, sep) + tail == parts[0] + (sep + (Join(parts[1..], sep) + tail))
  {}

  lemma {:induction false} JoinSnoc(parts: seq<string>, part: string, sep: string)
    ensures Join(parts + [part], sep) == if parts == [] then part else Join(parts, sep) + sep + part
  {
    if parts == [] {
      assert parts + [part] == [part];
    } else {
      assert (parts + [part])[1..] == parts[1..] + [part];
      JoinSnoc(parts[1..], part, sep);
      if |parts| > 1 {
        JoinHead(parts, sep, sep + part);
      }
    }
  }

  /** A loop that writes each part after the separator, if it is not the first. */
  lemma JoinNext(parts: seq<string>, i: nat, sep: string)
    requires i < |parts|
    ensures Join(parts[..i + 1], sep) == Join(parts[..i], sep) + (if i == 0 then "" else sep) + parts[i]
  {
    assert parts[..i + 1] == parts[..i] + [parts[i]];
    JoinSnoc(parts[..i], parts[i], sep);
  }

  lemma JoinFirst(parts: seq<string>, sep: string)
    requires parts != [] && parts[0] != ""
    ensures Join(parts, sep) != "" && Join(parts, sep)[0] == parts[0][0]
  {}

  lemma {:induction false} PartsHaveNoSeparator(s: string, sep: char)
    ensures forall p | p in Split(s, sep) :: sep !in p
  {
    if s != "" {
      PartsHaveNoSeparator(s[1..], sep);
      assert Split(s[1..], sep)[0] in Split(s[1..], sep);
    }
  }

  lemma JoinCons(first: string, parts: seq<string>, sep: string)
    requires parts != []
    ensures Join([first] + parts, sep) == first + sep + Join(parts, sep)
  {
    assert ([first] + parts)[1..] == parts;
  }

  lemma JoinLongerHead(c: char, first: string, others: seq<string>, sep: string)
    ensures Join([[c] + first] + others, sep) == [c] + Join([first] + others, sep)
  {
    if others != [] {
      JoinCons(first, others, sep);
      JoinCons([c] + first, others, sep);
    }
  }

  lemma {:induction false} JoinSplit(s: string, sep: char)
    ensures Join(Split(s, sep), [sep]) == s
    ensures forall p | p in Split(s, sep) :: sep !in p
  {
    PartsHaveNoSeparator(s, sep);
    if s != "" {
      var rest := Split(s[1..], sep);
      JoinSplit(s[1..], sep);
      if s[0] == sep {
        JoinCons("", rest, [sep]);
      } else {
        assert rest == [rest[0]] + rest[1..];
        JoinLongerHead(s[0], rest[0], rest[1..], [sep]);
      }
      assert s == [s[0]] + s[1..];
    }
  }

  lemma ChangeHeadThenAppend(first: string, parts: seq<string>, more: seq<string>)
    requires parts != []
    ensures [first] + (parts + more)[1..] == ([first] + parts[1..]) + more
  {
    assert (parts + more)[1..] == parts[1..] + more;
  }

  lemma {:induction false} SplitConcat(a: string, sep: char, b: string)
    ensures Split(a + [sep] + b, sep) == Split(a, sep) + Split(b, sep)
  {
    var s := a + [sep] + b;
    var more := Split(b, sep);
    if a == "" {
      assert s[1..] == b;
    } else {
      var parts := Split(a[1..], sep);
      assert s[1..] == a[1..] + [sep] + b;
      SplitConcat(a[1..], sep, b);
      if a[0] == sep {
        assert [""] + (parts + more) == ([""] + parts) + more;
      } else {
        ChangeHeadThenAppend([a[0]] + parts[0], parts, more);
      }
    }
  }

  // ----- trimming

  lemma {:induction false} TrimLeftShape(s: string, c: char) returns (n: nat)
    ensures s == Repeat(c, n) + TrimLeft(s, c)
    ensures TrimLeft(s, c) != "" ==> TrimLeft(s, c)[0] != c
    ensures s != "" && s[0] == c ==> n >= 1
  {
    if s != "" && s[0] == c {
      var m := TrimLeftShape(s[1..], c);
      n := m + 1;
      assert s == [c] + s[1..];
      assert Repeat(c, n) == [c] + Repeat(c, m);
    } else {
      n := 0;
    }
  }

  lemma {:induction false} TrimRightShape(s: string, c: char) returns (n: nat)
    ensures s == TrimRight(s, c) + Repeat(c, n)
    ensures TrimRight(s, c) != "" ==> TrimRight(s, c)[|TrimRight(s, c)| - 1] != c
  {
    if s != "" && s[|s| - 1] == c {
      var m := TrimRightShape(s[..|s| - 1], c);
      n := m + 1;
      assert s == s[..|s| - 1] + [c];
      assert Repeat(c, n) == Repeat(c, m) + [c];
    } else {
      n := 0;
    }
  }

  lemma {:induction false} TrimLeftRun(n: nat, core: string, c: char)
    requires core == "" || core[0] != c
    ensures TrimLeft(Repeat(c, n) + core, c) == core
  {
    var s := Repeat(c, n) + core;
    if n == 0 {
      assert s == core;
    } else {
      assert s[1..] == Repeat(c, n - 1) + core;
      TrimLeftRun(n - 1, core, c);
    }
  }

  lemma {:induction false} TrimRightRun(core: string, n: nat, c: char)
    requires core == "" || core[|core| - 1] != c
    ensures TrimRight(core + Repeat(c, n), c) == core
  {
    var s := core + Repeat(c, n);
    if n == 0 {
      assert s == core;
    } else {
      assert s[..|s| - 1] == core + Repeat(c, n - 1);
      TrimRightRun(core, n - 1, c);
    }
  }
}
