/** The Packet Identifier allocator: the free ranges as an index-linked list in a vector of slots. */
module PktIds {
  import opened Bytes
  import opened RangeList

  datatype Node = Vacant | Taken(range: Range, next: nat)

  // ---- the links ----------------------------------------------------------------------------

  ghost predicate Distinct(chain: seq<nat>) {
    forall i, j :: 0 <= i < j < |chain| ==> chain[i] != chain[j]
  }

  /** The slot at a position of the chain; behind the last is slot 0. */
  ghost function At(chain: seq<nat>, i: nat): nat {
    if i < |chain| then chain[i] else 0
  }

  /** `chain` lists the slots from `start` on, without repetition; its last slot links to slot 0, which
      is always vacant. */
  ghost predicate Path(start: nat, nodes: seq<Node>, chain: seq<nat>) {
    && nodes != [] && nodes[0].Vacant?
    && chain != [] && chain[0] == start
    && (forall i :: 0 <= i < |chain| ==> chain[i] < |nodes| && nodes[chain[i]].Taken?)
    && (forall i :: 0 <= i < |chain| ==> nodes[chain[i]].next == At(chain, i + 1))
    && Distinct(chain)
  }

  /** Every taken slot is on the chain. */
  ghost predicate NoLeak(nodes: seq<Node>, chain: seq<nat>) {
    forall s :: 0 <= s < |nodes| && nodes[s].Taken? ==> exists i :: 0 <= i < |chain| && chain[i] == s
  }

  ghost predicate Linked(start: nat, nodes: seq<Node>, chain: seq<nat>) {
    Path(start, nodes, chain) && NoLeak(nodes, chain)
  }

  /** The ranges along a chain. */
  ghost function Along(start: nat, nodes: seq<Node>, chain: seq<nat>): (rs: seq<Range>)
    requires Path(start, nodes, chain)
    ensures |rs| == |chain| && forall i :: 0 <= i < |chain| ==> rs[i] == nodes[chain[i]].range
  {
    seq(|chain|, i requires 0 <= i < |chain| => nodes[chain[i]].range)
  }

  /** What the slot at a position holds. */
  lemma SlotAt(start: nat, nodes: seq<Node>, chain: seq<nat>, k: nat)
    requires Linked(start, nodes, chain) && k <= |chain|
    ensures |chain| > 0 && chain[0] == start && At(chain, k) < |nodes|
    ensures nodes[At(chain, k)].Taken? <==> k < |chain|
    ensures k < |chain| ==> nodes[At(chain, k)] == Taken(Along(start, nodes, chain)[k], At(chain, k + 1))
  {
  }

  lemma AtIs(chain: seq<nat>, k: nat)
    requires k < |chain|
    ensures At(chain, k) == chain[k]
  {
  }

  /** Replacing the range of the slot at position `k`. */
  lemma SetRange(start: nat, nodes: seq<Node>, chain: seq<nat>, k: nat, r: Range)
    requires Linked(start, nodes, chain) && k < |chain| && At(chain, k) < |nodes|
    ensures var out := nodes[At(chain, k) := Taken(r, At(chain, k + 1))];
            Linked(start, out, chain) && Along(start, out, chain) == Along(start, nodes, chain)[k := r]
  {
    hide At;
    var out := nodes[At(chain, k) := Taken(r, At(chain, k + 1))];
    assert At(chain, k) == chain[k] by { AtIs(chain, k); }
    assert forall i :: 0 <= i < |chain| ==>
        out[chain[i]] == if i == k then Taken(r, At(chain, k + 1)) else nodes[chain[i]];
  }

  lemma DropAt(start: nat, nodes: seq<Node>, chain: seq<nat>)
    requires Path(start, nodes, chain) && |chain| > 1
    ensures var out, tail := nodes[start := Vacant], chain[1..];
            && out[0].Vacant?
            && forall i :: 0 <= i < |tail| ==>
                 && tail[i] < |out| && out[tail[i]].Taken? && out[tail[i]].next == At(tail, i + 1)
                 && out[tail[i]].range == Along(start, nodes, chain)[i + 1]
  {
    var out, tail := nodes[start := Vacant], chain[1..];
    forall i | 0 <= i < |tail|
      ensures tail[i] == chain[i + 1] && out[tail[i]] == nodes[chain[i + 1]] && At(tail, i + 1) == At(chain, i + 2)
    {
    }
  }

  lemma MakePath(start: nat, nodes: seq<Node>, chain: seq<nat>)
    requires nodes != [] && nodes[0].Vacant? && chain != [] && chain[0] == start && Distinct(chain)
    requires forall i :: 0 <= i < |chain| ==>
               chain[i] < |nodes| && nodes[chain[i]].Taken? && nodes[chain[i]].next == At(chain, i + 1)
    ensures Path(start, nodes, chain)
  {
  }

  lemma DropPath(start: nat, nodes: seq<Node>, chain: seq<nat>)
    requires Path(start, nodes, chain) && |chain| > 1
    ensures var out := nodes[start := Vacant];
            && Path(chain[1], out, chain[1..])
            && Along(chain[1], out, chain[1..]) == Along(start, nodes, chain)[1..]
  {
    var out, tail := nodes[start := Vacant], chain[1..];
    DropAt(start, nodes, chain);
    assert Distinct(tail);
    assert forall i :: 0 <= i < |tail| ==> Along(start, nodes, chain)[1..][i] == Along(start, nodes, chain)[i + 1];
    hide Path, Distinct;
    MakePath(chain[1], out, tail);
  }

  /** Unlinking the first of several slots. */
  lemma DropStart(start: nat, nodes: seq<Node>, chain: seq<nat>)
    requires Linked(start, nodes, chain) && |chain| > 1 && start < |nodes|
    ensures var out := nodes[start := Vacant];
            && Linked(chain[1], out, chain[1..])
            && Along(chain[1], out, chain[1..]) == Along(start, nodes, chain)[1..]
  {
    var out := nodes[start := Vacant];
    DropPath(start, nodes, chain);
    forall s | 0 <= s < |out| && out[s].Taken?
      ensures exists i :: 0 <= i < |chain[1..]| && chain[1..][i] == s
    {
      var i :| 0 <= i < |chain| && chain[i] == s;
      assert chain[1..][i - 1] == s;
    }
  }

  /** The chain with `slot` between position `k - 1` and position `k`. */
  ghost function Spliced(chain: seq<nat>, k: nat, slot: nat): (r: seq<nat>)
    requires k <= |chain|
    ensures |r| == |chain| + 1
    ensures forall i :: 0 <= i < |r| ==> r[i] == if i < k then chain[i] else if i == k then slot else chain[i - 1]
  {
    chain[..k] + [slot] + chain[k..]
  }

  /** The slots after a range was put into vacant `slot` and linked from the slot before it, if any. */
  ghost function Filled(nodes: seq<Node>, chain: seq<nat>, k: nat, slot: nat, r: Range): (out: seq<Node>)
    requires 0 < slot < |nodes| && k <= |chain|
    requires k > 0 ==> chain[k - 1] < |nodes| && chain[k - 1] != slot && nodes[chain[k - 1]].Taken?
    ensures |out| == |nodes|
  {
    var filled := nodes[slot := Taken(r, At(chain, k))];
    if k == 0 then filled else filled[chain[k - 1] := nodes[chain[k - 1]].(next := slot)]
  }

  /** What is in the slots of the chain after the splice. */
  lemma FilledSlots(start: nat, nodes: seq<Node>, chain: seq<nat>, k: nat, slot: nat, r: Range)
    requires Path(start, nodes, chain) && k <= |chain| && 0 < slot < |nodes| && nodes[slot].Vacant?
    ensures k > 0 ==> chain[k - 1] < |nodes| && chain[k - 1] != slot && nodes[chain[k - 1]].Taken?
    ensures var out := Filled(nodes, chain, k, slot, r);
            && out[0].Vacant? && out[slot] == Taken(r, At(chain, k))
            && (forall i :: 0 <= i < |chain| ==> chain[i] != slot)
            && (forall i :: 0 <= i < |chain| ==>
                  out[chain[i]] == if i + 1 == k then nodes[chain[i]].(next := slot) else nodes[chain[i]])
  {
    assert forall i :: 0 <= i < |chain| ==> chain[i] != slot;
  }

  lemma SplicedIndex(chain: seq<nat>, k: nat, slot: nat, i: nat)
    requires k <= |chain| && i <= |chain|
    ensures Spliced(chain, k, slot)[i] == if i < k then chain[i] else if i == k then slot else chain[i - 1]
  {
  }

  lemma SpliceDistinct(chain: seq<nat>, k: nat, slot: nat)
    requires k <= |chain| && Distinct(chain) && forall i :: 0 <= i < |chain| ==> chain[i] != slot
    ensures Distinct(Spliced(chain, k, slot))
  {
    var longer := Spliced(chain, k, slot);
    forall i, j | 0 <= i < j < |longer|
      ensures longer[i] != longer[j]
    {
      SplicedIndex(chain, k, slot, i);
      SplicedIndex(chain, k, slot, j);
    }
  }

  /** What is in one slot of the chain after the splice. */
  lemma FilledAt(start: nat, nodes: seq<Node>, chain: seq<nat>, k: nat, slot: nat, r: Range, j: nat)
    requires Path(start, nodes, chain) && k <= |chain| && 0 < slot < |nodes| && nodes[slot].Vacant?
    requires k > 0 ==> chain[k - 1] < |nodes| && chain[k - 1] != slot && nodes[chain[k - 1]].Taken?
    requires j < |chain|
    ensures chain[j] < |nodes| && nodes[chain[j]].Taken?
    ensures Filled(nodes, chain, k, slot, r)[chain[j]]
         == Taken(nodes[chain[j]].range, if j + 1 == k then slot else At(chain, j + 1))
    ensures Filled(nodes, chain, k, slot, r)[slot] == Taken(r, At(chain, k))
  {
    FilledSlots(start, nodes, chain, k, slot, r);
    hide Filled;
  }

  lemma SpliceAt(start: nat, nodes: seq<Node>, chain: seq<nat>, k: nat, slot: nat, r: Range, i: nat)
    requires Path(start, nodes, chain) && k <= |chain| && 0 < slot < |nodes| && nodes[slot].Vacant?
    requires k > 0 ==> chain[k - 1] < |nodes| && chain[k - 1] != slot && nodes[chain[k - 1]].Taken?
    requires i <= |chain|
    ensures i < k ==> chain[i] < |nodes| && nodes[chain[i]].Taken?
    ensures i > k ==> chain[i - 1] < |nodes| && nodes[chain[i - 1]].Taken?
    ensures var out, longer := Filled(nodes, chain, k, slot, r), Spliced(chain, k, slot);
            && longer[i] < |out|
            && out[longer[i]].Taken? && out[longer[i]].next == At(longer, i + 1)
            && out[longer[i]].range == if i < k then nodes[chain[i]].range else if i == k then r
                                       else nodes[chain[i - 1]].range
  {
    FilledAt(start, nodes, chain, k, slot, r, if i < k then i else if i > k then i - 1 else 0);
    SplicedIndex(chain, k, slot, i);
    if i < |chain| {
      SplicedIndex(chain, k, slot, i + 1);
    }
    hide Path, Filled, Spliced;
  }

  lemma SplicePath(start: nat, nodes: seq<Node>, chain: seq<nat>, k: nat, slot: nat, r: Range)
    requires Path(start, nodes, chain) && k <= |chain| && 0 < slot < |nodes| && nodes[slot].Vacant?
    requires k > 0 ==> chain[k - 1] < |nodes| && chain[k - 1] != slot && nodes[chain[k - 1]].Taken?
    ensures Path(if k == 0 then slot else start, Filled(nodes, chain, k, slot, r), Spliced(chain, k, slot))
  {
    FilledSlots(start, nodes, chain, k, slot, r);
    SpliceDistinct(chain, k, slot);
    assert chain[0] == start;
    hide Path, Filled, Spliced, Distinct;
    var out, longer := Filled(nodes, chain, k, slot, r), Spliced(chain, k, slot);
    forall i | 0 <= i < |longer|
      ensures longer[i] < |out| && out[longer[i]].Taken? && out[longer[i]].next == At(longer, i + 1)
    {
      SpliceAt(start, nodes, chain, k, slot, r, i);
    }
    MakePath(if k == 0 then slot else start, out, longer);
  }

  lemma SpliceNoLeak(start: nat, nodes: seq<Node>, chain: seq<nat>, k: nat, slot: nat, r: Range)
    requires Linked(start, nodes, chain) && k <= |chain| && 0 < slot < |nodes| && nodes[slot].Vacant?
    requires k > 0 ==> chain[k - 1] < |nodes| && chain[k - 1] != slot && nodes[chain[k - 1]].Taken?
    ensures NoLeak(Filled(nodes, chain, k, slot, r), Spliced(chain, k, slot))
  {
    hide Path;
    var out, longer := Filled(nodes, chain, k, slot, r), Spliced(chain, k, slot);
    forall s | 0 <= s < |out| && out[s].Taken?
      ensures exists i :: 0 <= i < |longer| && longer[i] == s
    {
      if s == slot {
        SplicedIndex(chain, k, slot, k);
      } else {
        assert nodes[s].Taken?;
        var i :| 0 <= i < |chain| && chain[i] == s;
        SplicedIndex(chain, k, slot, if i < k then i else i + 1);
      }
    }
  }

  lemma SpliceAlong(start: nat, nodes: seq<Node>, chain: seq<nat>, k: nat, slot: nat, r: Range)
    requires Path(start, nodes, chain) && k <= |chain| && 0 < slot < |nodes| && nodes[slot].Vacant?
    requires k > 0 ==> chain[k - 1] < |nodes| && chain[k - 1] != slot && nodes[chain[k - 1]].Taken?
    requires Path(if k == 0 then slot else start, Filled(nodes, chain, k, slot, r), Spliced(chain, k, slot))
    ensures Along(if k == 0 then slot else start, Filled(nodes, chain, k, slot, r), Spliced(chain, k, slot))
         == WithRange(Along(start, nodes, chain), k, r)
  {
    hide Filled, Spliced, WithRange;
    var out, longer := Filled(nodes, chain, k, slot, r), Spliced(chain, k, slot);
    assert forall i :: 0 <= i < |longer| ==> longer[i] < |out| && out[longer[i]].Taken?;
    hide Path;
    var rs := Along(start, nodes, chain);
    forall i | 0 <= i < |longer|
      ensures WithRange(rs, k, r)[i] == out[longer[i]].range
    {
      SpliceAt(start, nodes, chain, k, slot, r, i);
      WithRangeIndex(rs, k, r, i);
    }
  }

  lemma Splice(start: nat, nodes: seq<Node>, chain: seq<nat>, k: nat, slot: nat, r: Range)
    requires Linked(start, nodes, chain) && k <= |chain| && 0 < slot < |nodes| && nodes[slot].Vacant?
    ensures k > 0 ==> chain[k - 1] < |nodes| && chain[k - 1] != slot && nodes[chain[k - 1]].Taken?
    ensures var start' := if k == 0 then slot else start;
            var out, longer := Filled(nodes, chain, k, slot, r), Spliced(chain, k, slot);
            Linked(start', out, longer) && Along(start', out, longer) == WithRange(Along(start, nodes, chain), k, r)
  {
    FilledSlots(start, nodes, chain, k, slot, r);
    hide Filled, Along, NoLeak, Path;
    SplicePath(start, nodes, chain, k, slot, r);
    SpliceNoLeak(start, nodes, chain, k, slot, r);
    SpliceAlong(start, nodes, chain, k, slot, r);
  }

  /** One more slot at the end of the vector changes nothing. */
  lemma PushVacant(start: nat, nodes: seq<Node>, chain: seq<nat>)
    requires Linked(start, nodes, chain)
    ensures Linked(start, nodes + [Vacant], chain)
    ensures Along(start, nodes + [Vacant], chain) == Along(start, nodes, chain)
  {
    assert forall s :: 0 <= s < |nodes| ==> (nodes + [Vacant])[s] == nodes[s];
  }

  lemma {:induction false} CountSlots(slots: set<nat>, n: nat)
    requires n > 0 && forall x: nat :: x in slots <==> 0 < x < n
    ensures |slots| == n - 1
  {
    if n == 1 {
      assert slots == {};
    } else {
      CountSlots(slots - {n - 1}, n - 1);
    }
  }

  ghost function Elements(chain: seq<nat>, n: nat): (s: set<nat>)
    requires n <= |chain| && Distinct(chain)
    ensures |s| == n && forall x :: x in s <==> exists i :: 0 <= i < n && chain[i] == x
  {
    if n == 0 then {} else Elements(chain, n - 1) + {chain[n - 1]}
  }

  lemma Basics(start: nat, nodes: seq<Node>, chain: seq<nat>)
    requires Linked(start, nodes, chain)
    ensures nodes != [] && nodes[0].Vacant? && Distinct(chain)
  {
  }

  lemma OnChain(start: nat, nodes: seq<Node>, chain: seq<nat>, x: nat)
    requires Linked(start, nodes, chain)
    ensures Distinct(chain)
    ensures x in Elements(chain, |chain|) <==> x < |nodes| && nodes[x].Taken?
  {
    hide Elements;
    if x < |nodes| && nodes[x].Taken? {
      var i :| 0 <= i < |chain| && chain[i] == x;
    }
  }

  /** The slots of the chain are those behind slot 0, when these are all taken. */
  lemma Visited(start: nat, nodes: seq<Node>, chain: seq<nat>)
    requires Linked(start, nodes, chain) && forall s :: 0 < s < |nodes| ==> nodes[s].Taken?
    ensures nodes != [] && Distinct(chain)
    ensures forall x: nat :: x in Elements(chain, |chain|) <==> 0 < x < |nodes|
  {
    hide Linked, Elements;
    Basics(start, nodes, chain);
    forall x: nat
      ensures x in Elements(chain, |chain|) <==> 0 < x < |nodes|
    {
      OnChain(start, nodes, chain, x);
    }
  }

  /** When every slot but the first is taken, the chain is as long as the vector allows. */
  lemma FullChain(start: nat, nodes: seq<Node>, chain: seq<nat>)
    requires Linked(start, nodes, chain) && forall s :: 0 < s < |nodes| ==> nodes[s].Taken?
    ensures |nodes| == |chain| + 1
  {
    Visited(start, nodes, chain);
    CountSlots(Elements(chain, |chain|), |nodes|);
  }

  lemma NewLinked(r: Range)
    ensures Linked(1, [Vacant, Taken(r, 0)], [1]) && Along(1, [Vacant, Taken(r, 0)], [1]) == [r]
  {
    var nodes, chain: seq<nat> := [Vacant, Taken(r, 0)], [1];
    assert nodes[chain[0]] == Taken(r, 0) && At(chain, 1) == 0;
  }

  // ---- the allocator ------------------------------------------------------------------------

  /** The answer to a request; `Panic` is the overflow of a 16-bit sum. */
  datatype Answer = Granted(id: PktId) | Denied | Panic

  lemma RangesFit(rs: seq<Range>, max: PktId, refused: nat)
    requires RangeList.Valid(rs, max, refused)
    ensures |rs| <= max + 1
  {
    RangesAtMost(rs, max);
  }

  lemma {:induction false} SplitUnique(rs: seq<Range>, id: PktId, k: nat)
    requires k <= |rs| && (forall i :: 0 <= i < k ==> rs[i].lo <= id) && (k < |rs| ==> rs[k].lo > id)
    ensures Split(rs, id) == k
  {
    if k == 0 {
    } else {
      assert forall i :: 0 <= i < k - 1 ==> rs[1..][i] == rs[i + 1];
      SplitUnique(rs[1..], id, k - 1);
    }
  }

  class Allocator {
    var start: nat
    var ranges: seq<Node>

    ghost var chain: seq<nat>
    ghost const max: PktId
    ghost var refused: nat

    /** The links are in order. */
    ghost predicate WellLinked()
      reads this
    {
      Linked(start, ranges, chain)
    }

    /** The free list, lowest identifier first. */
    ghost function Ranges(): (rs: seq<Range>)
      requires WellLinked()
      reads this
      ensures |rs| == |chain| > 0
    {
      Along(start, ranges, chain)
    }

    /** What holds as long as only identifiers that are held are given back: slot 1 is the tail, the
        ranges are sorted and disjoint, and the vector is bounded. */
    ghost predicate Valid()
      reads this
    {
      && WellLinked() && chain[|chain| - 1] == 1 && |ranges| <= max + 2
      && RangeList.Valid(Ranges(), max, refused)
    }

    ghost function FreeIds(): set<int>
      requires WellLinked()
      reads this
    {
      Free(Ranges())
    }

    constructor WithMax(max: PktId)
      ensures Valid() && this.max == max && refused == 0
      ensures Ranges() == [Range(1, max)] && FreeIds() == Ids(max)
    {
      ranges := [Vacant, Taken(Range(1, max), 0)];
      start := 1;
      chain := [1];
      this.max := max;
      refused := 0;
      new;
      NewLinked(Range(1, max));
      InitialValid(max);
    }

    constructor ()
      ensures Valid() && max == 65535 && refused == 0
      ensures Ranges() == [Range(1, 65535)] && FreeIds() == Ids(65535)
    {
      ranges := [Vacant, Taken(Range(1, 65535), 0)];
      start := 1;
      chain := [1];
      max := 65535;
      refused := 0;
      new;
      NewLinked(Range(1, 65535));
      InitialValid(65535);
    }

    /** The first range loses its first identifier, or is unlinked when that was its only one. */
    method TakeFirst() returns (r: Answer)
      requires WellLinked()
      modifies this
      ensures match Next(old(Ranges()))
              case Issued(id, rest) => r == Granted(id) && WellLinked() && Ranges() == rest && refused == old(refused)
              case Exhausted(rest) => r == Denied && WellLinked() && Ranges() == rest && refused == old(refused) + 1
              case Overflow => r == Panic
      ensures |ranges| == old(|ranges|)
      ensures !r.Panic? ==> chain[|chain| - 1] == old(chain[|chain| - 1])
    {
      hide Linked, Along;
      SlotAt(start, ranges, chain, 0);
      SlotAt(start, ranges, chain, 1);
      var oldStart := start;
      var Taken(range, next) := ranges[oldStart];
      var Range(lo, hi) := range;
      ghost var rs := Ranges();
      r := Granted(lo);
      if lo >= hi {
        if ranges[next].Vacant? {
          // the sum is a u16
          if lo == 65535 {
            return Panic;
          }
          SetRange(start, ranges, chain, 0, Range(lo + 1, hi));
          ranges := ranges[oldStart := Taken(Range(lo + 1, hi), next)];
          assert rs[0 := Range(lo + 1, hi)] == [Range(lo + 1, hi)];
          if lo != hi {
            r := Denied;
            refused := refused + 1;
          }
        } else {
          DropStart(start, ranges, chain);
          ranges := ranges[oldStart := Vacant];
          start := next;
          chain := chain[1..];
        }
      } else {
        SetRange(start, ranges, chain, 0, Range(lo + 1, hi));
        ranges := ranges[oldStart := Taken(Range(lo + 1, hi), next)];
        assert rs[0 := Range(lo + 1, hi)] == [Range(lo + 1, hi)] + rs[1..];
      }
    }

    /** Takes the first identifier off the list. On a valid list that is the least free one. */
    method NextId() returns (r: Answer)
      requires WellLinked()
      modifies this
      ensures match Next(old(Ranges()))
              case Issued(id, rest) => r == Granted(id) && WellLinked() && Ranges() == rest && refused == old(refused)
              case Exhausted(rest) => r == Denied && WellLinked() && Ranges() == rest && refused == old(refused) + 1
              case Overflow => r == Panic
      ensures |ranges| == old(|ranges|)
      ensures old(Valid()) ==>
                && (r.Panic? <==> NextOverflows(old(FreeIds()), max, old(refused)))
                && (r.Denied? ==> old(FreeIds()) == {})
                && (r.Granted? ==> r.id in old(FreeIds()) && forall x :: x in old(FreeIds()) ==> r.id <= x)
                && (!r.Panic? ==> Valid() && FreeIds() == old(FreeIds()) - if r.Granted? then {r.id} else {})
    {
      hide Next, Free, Linked, Along, RangeList.Valid, NextOverflows;
      ghost var rs := Ranges();
      if RangeList.Valid(rs, max, refused) {
        NextRefines(rs, max, refused);
      }
      r := TakeFirst();
    }

    /** Walks to the first range that starts above `id`: position `k`, slot `nextIdx`, behind `prevIdx`. */
    method FindPlace(id: PktId) returns (prevIdx: Option<nat>, nextIdx: nat, ghost k: nat)
      requires WellLinked()
      ensures k == Split(Ranges(), id) && nextIdx == At(chain, Split(Ranges(), id))
      ensures prevIdx == if Split(Ranges(), id) > 0 then Some(At(chain, Split(Ranges(), id) - 1)) else None
    {
      hide Split, Linked, Along;
      prevIdx, nextIdx, k := None, start, 0;
      SlotAt(start, ranges, chain, 0);
      while ranges[nextIdx].Taken?
        invariant k <= |chain| && nextIdx == At(chain, k) && nextIdx < |ranges|
        invariant ranges[nextIdx].Taken? <==> k < |chain|
        invariant k < |chain| ==> ranges[nextIdx] == Taken(Ranges()[k], At(chain, k + 1))
        invariant prevIdx == if k > 0 then Some(At(chain, k - 1)) else None
        invariant forall i :: 0 <= i < k ==> Ranges()[i].lo <= id
        decreases |chain| - k
      {
        if ranges[nextIdx].range.lo > id {
          break;
        }
        prevIdx, nextIdx := Some(nextIdx), ranges[nextIdx].next;
        k := k + 1;
        SlotAt(start, ranges, chain, k);
      }
      SplitUnique(Ranges(), id, k);
    }

    method MaybeExtendNext(nextNode: nat, id: PktId, ghost k: nat) returns (extended: bool)
      requires WellLinked() && k <= |chain| && nextNode == At(chain, k)
      modifies `ranges
      ensures WellLinked() && |ranges| == old(|ranges|)
      ensures extended <==> k < |chain| && old(Ranges())[k].lo - 1 == id
      ensures extended ==> Ranges() == old(Ranges())[k := Range(id, old(Ranges())[k].hi)]
      ensures !extended ==> ranges == old(ranges)
    {
      hide Linked, Along;
      SlotAt(start, ranges, chain, k);
      extended := false;
      if ranges[nextNode].Taken? {
        var Taken(range, next) := ranges[nextNode];
        if range.lo - 1 == id {
          SetRange(start, ranges, chain, k, Range(id, range.hi));
          ranges := ranges[nextNode := Taken(Range(id, range.hi), next)];
          extended := true;
        }
      }
    }

    method MaybeExtendPrev(prevNode: nat, id: PktId, ghost k: nat) returns (extended: bool, panics: bool)
      requires WellLinked() && 0 < k <= |chain| && prevNode == At(chain, k - 1)
      modifies `ranges
      ensures WellLinked() && |ranges| == old(|ranges|)
      ensures panics <==> old(Ranges())[k - 1].hi == 65535
      ensures extended <==> !panics && old(Ranges())[k - 1].hi + 1 == id
      ensures extended ==> Ranges() == old(Ranges())[k - 1 := Range(old(Ranges())[k - 1].lo, id)]
      ensures !extended ==> ranges == old(ranges)
    {
      hide Linked, Along;
      SlotAt(start, ranges, chain, k - 1);
      var Taken(range, next) := ranges[prevNode];
      // the sum is a u16
      if range.hi == 65535 {
        return false, true;
      }
      extended, panics := range.hi + 1 == id, false;
      if extended {
        SetRange(start, ranges, chain, k - 1, Range(range.lo, id));
        ranges := ranges[prevNode := Taken(Range(range.lo, id), next)];
      }
    }

    /** The first vacant slot behind slot 0, or a new one when there is none. */
    method VacantSlot() returns (slot: nat)
      requires WellLinked()
      modifies `ranges
      ensures WellLinked() && Ranges() == old(Ranges())
      ensures 0 < slot < |ranges| && ranges[slot].Vacant? && forall s :: 0 < s < slot ==> ranges[s].Taken?
      ensures |ranges| == old(|ranges|) || |ranges| == |chain| + 2
    {
      hide Linked, Along;
      SlotAt(start, ranges, chain, 0);
      slot := 1;
      while slot < |ranges|
        invariant 1 <= slot <= |ranges| || |ranges| == 1
        invariant forall s :: 0 < s < slot && s < |ranges| ==> ranges[s].Taken?
      {
        if ranges[slot].Vacant? {
          return;
        }
        slot := slot + 1;
      }
      FullChain(start, ranges, chain);
      PushVacant(start, ranges, chain);
      ranges := ranges + [Vacant];
      slot := |ranges| - 1;
    }

    /** A new range of one identifier between two slots, or at the head of the list. */
    method InsertNode(prevIdx: Option<nat>, nextIdx: nat, id: PktId, ghost k: nat)
      requires WellLinked() && k <= |chain| && nextIdx == At(chain, k)
      requires prevIdx == if k > 0 then Some(At(chain, k - 1)) else None
      modifies `start, `ranges, `chain
      ensures WellLinked()
      ensures Ranges() == WithRange(old(Ranges()), k, Range(id, id))
      ensures |ranges| == old(|ranges|) || |ranges| == |chain| + 1
      ensures k < |old(chain)| ==> chain[|chain| - 1] == old(chain[|chain| - 1])
    {
      hide Linked, Along;
      var slot := VacantSlot();
      Splice(start, ranges, chain, k, slot, Range(id, id));
      ranges := ranges[slot := Taken(Range(id, id), nextIdx)];
      if prevIdx.None? {
        start := slot;
      } else {
        ranges := ranges[prevIdx.value := ranges[prevIdx.value].(next := slot)];
      }
      chain := Spliced(chain, k, slot);
    }

    /** Finds the place of an identifier in the list and extends a neighbour, or inserts a new range. */
    method Merge(id: PktId) returns (overflow: bool)
      requires WellLinked()
      modifies `start, `ranges, `chain
      ensures overflow <==> Insert(old(Ranges()), id).InsertOverflow?
      ensures !overflow ==> WellLinked() && Insert(old(Ranges()), id) == Merged(Ranges())
      ensures !overflow ==> |ranges| == old(|ranges|) || |ranges| == |chain| + 1
      ensures !overflow && Split(old(Ranges()), id) < |old(chain)| ==> chain[|chain| - 1] == old(chain[|chain| - 1])
    {
      hide Split, Linked, Along;
      var prevIdx, nextIdx, k := FindPlace(id);
      if prevIdx.Some? {
        var extended, panics := MaybeExtendPrev(prevIdx.value, id, k);
        if panics || extended {
          return panics;
        }
      }
      var extended := MaybeExtendNext(nextIdx, id, k);
      if !extended {
        InsertNode(prevIdx, nextIdx, id, k);
      }
      overflow := false;
    }

    /** Gives an identifier back. If it was taken, exactly it becomes free. */
    method ReturnId(id: PktId) returns (overflow: bool)
      requires WellLinked()
      modifies this
      ensures overflow <==> Insert(old(Ranges()), id).InsertOverflow?
      ensures !overflow ==> WellLinked() && Insert(old(Ranges()), id) == Merged(Ranges())
      ensures refused == old(refused)
      ensures old(Valid()) ==> (overflow <==> max == 65535 && old(Ranges()[|Ranges()| - 1].lo) <= id)
      ensures old(Valid()) && id <= max && id !in old(FreeIds()) ==>
                !overflow && Valid() && FreeIds() == old(FreeIds()) + {id}
    {
      hide Insert, Split, Free, Linked, Along, Sorted;
      ghost var rs := Ranges();
      if Sorted(rs, max) {
        InsertOverflowExactly(rs, max, id);
      }
      ghost var legal := Valid() && id <= max && id !in FreeIds();
      if legal {
        InsertRefines(rs, max, refused, id);
      }
      overflow := Merge(id);
      if legal {
        RangesFit(Ranges(), max, refused);
      }
    }
  }
}
