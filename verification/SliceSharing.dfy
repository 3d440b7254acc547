/** Go slices with shared backing arrays, and what the two rule loops make of a base slice that they
    append to in every iteration. */
module SliceSharing {

  /** A slice from the start of its backing array; the array's length is the capacity. */
  datatype Slice<T> = Slice(buffer: array<T>, len: nat)

  ghost predicate IsSlice<T>(s: Slice<T>) {
    s.len <= s.buffer.Length
  }

  ghost function Items<T>(s: Slice<T>): seq<T>
    requires IsSlice(s)
    reads s.buffer
  {
    s.buffer[..s.len]
  }

  /** `append(s, x)`: writes into spare capacity, or else moves to a new array of some larger size. */
  method Append<T>(s: Slice<T>, x: T) returns (r: Slice<T>)
    requires IsSlice(s)
    modifies s.buffer
    ensures IsSlice(r) && r.len == s.len + 1 && Items(r) == old(Items(s)) + [x]
    ensures s.len < s.buffer.Length ==> r.buffer == s.buffer && s.buffer[..] == old(s.buffer[..])[s.len := x]
    ensures s.len == s.buffer.Length ==> fresh(r.buffer) && s.buffer[..] == old(s.buffer[..])
  {
    if s.len < s.buffer.Length {
      s.buffer[s.len] := x;
      r := Slice(s.buffer, s.len + 1);
    } else {
      var capacity: nat :| capacity > s.len;
      var grown := new T[capacity](_ => x);
      for i := 0 to s.len
        invariant grown[..i] == s.buffer[..i] && grown[s.len] == x
        invariant s.buffer[..] == old(s.buffer[..])
      {
        grown[i] := s.buffer[i];
      }
      r := Slice(grown, s.len + 1);
    }
  }

  // ----- the deny loop

  /** Each list is consumed, element by element, before the next one is built. */
  method ConsumedLists<T>(base: Slice<T>, whens: seq<seq<T>>) returns (consumed: seq<seq<T>>)
    requires IsSlice(base)
    modifies base.buffer
    ensures Items(base) == old(Items(base))
    ensures |consumed| == |whens| && forall i | 0 <= i < |whens| :: consumed[i] == old(Items(base)) + whens[i]
  {
    consumed := [];
    for i := 0 to |whens|
      invariant Items(base) == old(Items(base))
      invariant |consumed| == i && forall j | 0 <= j < i :: consumed[j] == old(Items(base)) + whens[j]
    {
      var current := base;
      for j := 0 to |whens[i]|
        invariant IsSlice(current) && current.len == base.len + j
        invariant current.buffer == base.buffer || fresh(current.buffer)
        invariant Items(base) == old(Items(base))
        invariant Items(current) == old(Items(base)) + whens[i][..j]
      {
        current := Append(current, whens[i][j]);
        assert whens[i][..j + 1] == whens[i][..j] + [whens[i][j]];
      }
      assert whens[i][..|whens[i]|] == whens[i];
      var copied: seq<T> := [];
      for k := 0 to current.len
        invariant copied == current.buffer[..k]
      {
        copied := copied + [current.buffer[k]];
      }
      consumed := consumed + [copied];
    }
  }

  // ----- the allow loop

  /** What the shared array holds at distance `t` behind the base after all the lists were built. */
  function LastWritten<T>(whens: seq<seq<T>>, t: nat): T
    requires exists i | 0 <= i < |whens| :: t < |whens[i]|
  {
    var last := whens[|whens| - 1];
    if t < |last| then last[t] else LastWritten(whens[..|whens| - 1], t)
  }

  ghost predicate Wrote<T>(whens: seq<seq<T>>, t: nat) {
    exists i | 0 <= i < |whens| :: t < |whens[i]|
  }

  /** What the `i`th list holds behind the base in the end: what was written last if the list still
      shares the base's array, its own elements if it outgrew it. */
  function FinalTail<T>(whens: seq<seq<T>>, i: nat, room: nat): (tail: seq<T>)
    requires i < |whens|
    ensures |tail| == |whens[i]|
  {
    if |whens[i]| <= room then seq(|whens[i]|, t requires 0 <= t < |whens[i]| => LastWritten(whens, t))
    else whens[i]
  }

  /** Spare positions after a list was written over them from the start. */
  function Overwritten<T>(spare: seq<T>, written: seq<T>): seq<T> {
    if |written| <= |spare| then written + spare[|written|..] else written[..|spare|]
  }

  lemma OverwrittenStep<T>(spare: seq<T>, written: seq<T>, x: T)
    ensures Overwritten(spare, written + [x]) ==
      if |written| < |spare| then Overwritten(spare, written)[|written| := x] else Overwritten(spare, written)
  {}

  lemma UpdateSecond<T>(a: seq<T>, b: seq<T>, j: nat, x: T)
    requires j < |b|
    ensures (a + b)[|a| + j := x] == a + b[j := x]
  {}

  lemma TakeAndDrop<T>(s: seq<T>, a: seq<T>, b: seq<T>)
    requires s == a + b
    ensures s[..|a|] == a && s[|a|..] == b
  {}

  /** The spare positions hold what was last written to them. */
  ghost predicate HoldsLastWritten<T>(spare: seq<T>, whens: seq<seq<T>>) {
    forall t: nat | t < |spare| && Wrote(whens, t) :: spare[t] == LastWritten(whens, t)
  }

  lemma WritingKeepsTrack<T>(spare: seq<T>, whens: seq<seq<T>>, when: seq<T>)
    requires HoldsLastWritten(spare, whens)
    ensures HoldsLastWritten(Overwritten(spare, when), whens + [when])
  {
    var extended := whens + [when];
    assert extended[..|whens|] == whens;
    forall t: nat | t < |spare| && Wrote(extended, t)
      ensures Overwritten(spare, when)[t] == LastWritten(extended, t)
    {
      if t >= |when| {
        var i :| 0 <= i < |extended| && t < |extended[i]|;
        assert whens[i] == extended[i];
        assert Wrote(whens, t);
      }
    }
  }

  lemma TrackedTail<T>(spare: seq<T>, whens: seq<seq<T>>, i: nat)
    requires HoldsLastWritten(spare, whens) && i < |whens| && |whens[i]| <= |spare|
    ensures spare[..|whens[i]|] == FinalTail(whens, i, |spare|)
  {
    forall t: nat | t < |whens[i]| ensures spare[t] == FinalTail(whens, i, |spare|)[t] {
      assert Wrote(whens, t);
    }
  }

  lemma TakeFurther<T>(s: seq<T>, n: nat, m: nat)
    requires n + m <= |s|
    ensures s[..n + m] == s[..n] + s[n..][..m]
  {}

  /** The state after some elements were appended to the base one by one. */
  ghost predicate HasAppended<T>(base: Slice<T>, current: Slice<T>, items: seq<T>, spare: seq<T>, written: seq<T>)
    reads base.buffer, current.buffer
  {
    && IsSlice(current) && current.len == |items| + |written|
    && base.buffer.Length == |items| + |spare|
    && Items(current) == items + written
    && base.buffer[..] == items + Overwritten(spare, written)
    && (current.buffer == base.buffer <==> |written| <= |spare|)
  }

  method AppendOne<T>(base: Slice<T>, current: Slice<T>, x: T,
                      ghost items: seq<T>, ghost spare: seq<T>, ghost written: seq<T>) returns (next: Slice<T>)
    requires HasAppended(base, current, items, spare, written)
    modifies current.buffer
    ensures HasAppended(base, next, items, spare, written + [x])
    ensures next.buffer == current.buffer || fresh(next.buffer)
  {
    OverwrittenStep(spare, written, x);
    if |written| < |spare| {
      UpdateSecond(items, Overwritten(spare, written), |written|, x);
    }
    next := Append(current, x);
    assert items + (written + [x]) == items + written + [x];
  }

  /** One iteration of the allow loop: appends one list's elements to the base. */
  method AppendAll<T>(base: Slice<T>, when: seq<T>) returns (current: Slice<T>)
    requires IsSlice(base)
    modifies base.buffer
    ensures IsSlice(current) && current.len == base.len + |when|
    ensures Items(base) == old(Items(base))
    ensures Items(current) == old(Items(base)) + when
    ensures if |when| <= base.buffer.Length - base.len then current.buffer == base.buffer else fresh(current.buffer)
    ensures base.buffer[base.len..] == Overwritten(old(base.buffer[base.len..]), when)
  {
    current := base;
    ghost var items, spare := Items(base), base.buffer[base.len..];
    for j := 0 to |when|
      invariant HasAppended(base, current, items, spare, when[..j])
      invariant current.buffer == base.buffer || fresh(current.buffer)
    {
      current := AppendOne(base, current, when[j], items, spare, when[..j]);
      assert when[..j + 1] == when[..j] + [when[j]];
    }
    assert when[..|when|] == when;
    TakeAndDrop(base.buffer[..], items, Overwritten(spare, when));
  }

  /** The lists are kept as slices; their contents are looked at only when the loop is over. */
  method KeptLists<T>(base: Slice<T>, whens: seq<seq<T>>) returns (lists: seq<Slice<T>>)
    requires IsSlice(base)
    modifies base.buffer
    ensures Items(base) == old(Items(base))
    ensures |lists| == |whens|
    ensures forall i | 0 <= i < |whens| ::
      && IsSlice(lists[i])
      && Items(lists[i]) == old(Items(base)) + FinalTail(whens, i, base.buffer.Length - base.len)
  {
    var room := base.buffer.Length - base.len;
    lists := [];
    for n := 0 to |whens|
      invariant Items(base) == old(Items(base))
      invariant |lists| == n
      invariant forall i | 0 <= i < n :: IsSlice(lists[i]) && lists[i].len == base.len + |whens[i]|
      invariant forall i | 0 <= i < n && |whens[i]| <= room :: lists[i].buffer == base.buffer
      invariant forall i | 0 <= i < n && |whens[i]| > room ::
        && fresh(lists[i].buffer)
        && Items(lists[i]) == old(Items(base)) + whens[i]
      invariant HoldsLastWritten(base.buffer[base.len..], whens[..n])
    {
      WritingKeepsTrack(base.buffer[base.len..], whens[..n], whens[n]);
      assert whens[..n + 1] == whens[..n] + [whens[n]];
      var current := AppendAll(base, whens[n]);
      lists := lists + [current];
    }
    assert whens[..|whens|] == whens;
    forall i | 0 <= i < |whens|
      ensures Items(lists[i]) == old(Items(base)) + FinalTail(whens, i, room)
    {
      if |whens[i]| <= room {
        TrackedTail(base.buffer[base.len..], whens, i);
        TakeFurther(base.buffer[..], base.len, |whens[i]|);
      }
    }
  }

  // ----- when every rule keeps its own conditions

  ghost predicate AllKeepTheirOwn<T(!new)>(whens: seq<seq<T>>, room: nat) {
    forall i | 0 <= i < |whens| :: FinalTail(whens, i, room) == whens[i]
  }

  /** Without spare capacity every list keeps its own elements. */
  lemma NoSpareCapacityNoSharing<T(!new)>(whens: seq<seq<T>>)
    ensures AllKeepTheirOwn(whens, 0)
  {}

  /** The last list that is written to a position. */
  predicate IsLastWriter<T>(whens: seq<seq<T>>, j: nat, t: nat) {
    && j < |whens| && t < |whens[j]|
    && forall k | j < k < |whens| :: |whens[k]| <= t
  }

  /** Where a list that fits into the spare capacity is overwritten, it is overwritten in the end with
      what it had itself. */
  predicate LastWritersAgree<T(==)>(whens: seq<seq<T>>, room: nat) {
    forall i, j | 0 <= i < j < |whens| && |whens[i]| <= room ::
      forall t | 0 <= t < |whens[i]| && IsLastWriter(whens, j, t) :: whens[j][t] == whens[i][t]
  }

  /** No list that fits into the spare capacity is followed by another non-empty list. */
  predicate LastToShare<T>(whens: seq<seq<T>>, room: nat) {
    forall i, j | 0 <= i < j < |whens| :: 0 < |whens[i]| <= room ==> whens[j] == []
  }

  lemma {:induction false} LastWrittenByLastWriter<T>(whens: seq<seq<T>>, i: nat, t: nat) returns (k: nat)
    requires i < |whens| && t < |whens[i]|
    ensures i <= k && IsLastWriter(whens, k, t) && LastWritten(whens, t) == whens[k][t]
  {
    var n := |whens| - 1;
    if t < |whens[n]| {
      k := n;
    } else {
      assert whens[..n][i] == whens[i];
      k := LastWrittenByLastWriter(whens[..n], i, t);
      forall j | k < j < |whens| ensures |whens[j]| <= t {
        if j < n { assert whens[..n][j] == whens[j]; }
      }
    }
  }

  /** For any lists and capacity: every list keeps its own elements if and only if the last writers of
      the positions it shares agree with it. */
  lemma ListsKeepTheirOwnIffLastWritersAgree<T(!new)>(whens: seq<seq<T>>, room: nat)
    ensures AllKeepTheirOwn(whens, room) <==> LastWritersAgree(whens, room)
  {
    forall i, t | 0 <= i < |whens| && |whens[i]| <= room && 0 <= t < |whens[i]|
      ensures LastWritersAgree(whens, room) ==> FinalTail(whens, i, room)[t] == whens[i][t]
    {
      var k := LastWrittenByLastWriter(whens, i, t);
    }
    if AllKeepTheirOwn(whens, room) {
      forall i, j, t | 0 <= i < j < |whens| && |whens[i]| <= room && 0 <= t < |whens[i]| && IsLastWriter(whens, j, t)
        ensures whens[j][t] == whens[i][t]
      {
        var k := LastWrittenByLastWriter(whens, i, t);
        assert k == j;
        assert FinalTail(whens, i, room)[t] == LastWritten(whens, t);
      }
    }
  }

  /** In particular if no list that fits into the spare capacity is followed by a non-empty one. */
  lemma LastToShareKeepsItsOwn<T(!new)>(whens: seq<seq<T>>, room: nat)
    requires LastToShare(whens, room)
    ensures AllKeepTheirOwn(whens, room)
  {
    forall i, j, t | 0 <= i < j < |whens| && |whens[i]| <= room && 0 <= t < |whens[i]|
      ensures !IsLastWriter(whens, j, t)
    {
      assert whens[j] == [];
    }
    ListsKeepTheirOwnIffLastWritersAgree(whens, room);
  }
}
