/** The free Packet Identifiers as a list of inclusive ranges, lowest first: what the allocator does,
    without its links. */
module RangeList {
  import opened Bytes

  /** An inclusive range of 16-bit numbers, empty when `hi < lo`. */
  datatype Range = Range(lo: PktId, hi: PktId)

  // ---- operations ---------------------------------------------------------------------------

  /** The result of taking an identifier; `Overflow` is the panic of a 16-bit addition. */
  datatype NextResult = Issued(id: PktId, rest: seq<Range>) | Exhausted(rest: seq<Range>) | Overflow

  function Next(rs: seq<Range>): NextResult
    requires rs != []
  {
    var Range(lo, hi) := rs[0];
    if lo < hi then Issued(lo, [Range(lo + 1, hi)] + rs[1..])
    else if |rs| > 1 then Issued(lo, rs[1..])
    else if lo == 65535 then Overflow
    else if lo == hi then Issued(lo, [Range(lo + 1, hi)])
    else Exhausted([Range(lo + 1, hi)])
  }

  /** How many ranges at the front start at or below `id`. */
  function Split(rs: seq<Range>, id: PktId): (k: nat)
    ensures k <= |rs| && (k < |rs| ==> rs[k].lo > id)
    ensures forall i :: 0 <= i < k ==> rs[i].lo <= id
  {
    if rs == [] || rs[0].lo > id then 0 else 1 + Split(rs[1..], id)
  }

  /** The list with one more range at position `k`. */
  function WithRange(rs: seq<Range>, k: nat, r: Range): (out: seq<Range>)
    requires k <= |rs|
    ensures |out| == |rs| + 1
  {
    rs[..k] + [r] + rs[k..]
  }

  lemma WithRangeIndex(rs: seq<Range>, k: nat, r: Range, i: nat)
    requires k <= |rs| && i <= |rs|
    ensures WithRange(rs, k, r)[i] == if i < k then rs[i] else if i == k then r else rs[i - 1]
  {
  }

  lemma WithRangeParts(rs: seq<Range>, k: nat, r: Range)
    requires k <= |rs|
    ensures var out := WithRange(rs, k, r);
            && out[k] == r
            && (forall i :: 0 <= i < k ==> out[i] == rs[i])
            && (forall i :: k < i < |out| ==> out[i] == rs[i - 1])
  {
  }

  datatype InsertResult = Merged(rest: seq<Range>) | InsertOverflow

  /** Giving an identifier back: it extends the range before it, or the range behind it, or becomes a
      range of its own. Nothing checks that it was taken. */
  function Insert(rs: seq<Range>, id: PktId): InsertResult {
    var k := Split(rs, id);
    if k > 0 && rs[k - 1].hi == 65535 then InsertOverflow
    else if k > 0 && rs[k - 1].hi + 1 == id then Merged(rs[k - 1 := Range(rs[k - 1].lo, id)])
    else if k < |rs| && rs[k].lo - 1 == id then Merged(rs[k := Range(id, rs[k].hi)])
    else Merged(WithRange(rs, k, Range(id, id)))
  }

  // ---- meaning ------------------------------------------------------------------------------

  predicate Holds(r: Range, x: int) {
    r.lo <= x <= r.hi
  }

  ghost predicate Covered(rs: seq<Range>, x: int) {
    exists i :: 0 <= i < |rs| && Holds(rs[i], x)
  }

  /** The identifiers in the ranges. */
  ghost function Free(rs: seq<Range>): (s: set<int>)
    ensures forall x :: x in s <==> Covered(rs, x)
  {
    assert forall x :: Covered(rs, x) ==> 1 <= x <= 65535;
    set x: int | 1 <= x <= 65535 && Covered(rs, x)
  }

  /** All the identifiers up to `max`. */
  ghost function Ids(max: PktId): set<int> {
    set x: int | 1 <= x <= max && Holds(Range(1, max), x)
  }

  /** The ranges are increasing and disjoint, none but the last is empty, and the last ends at `max`. */
  ghost predicate Sorted(rs: seq<Range>, max: PktId) {
    && rs != [] && rs[|rs| - 1].hi == max
    && (forall i :: 0 <= i < |rs| - 1 ==> rs[i].lo <= rs[i].hi)
    && (forall i :: 0 <= i < |rs| ==> rs[i].hi <= max)
    && (forall i, j :: 0 <= i < j < |rs| ==> rs[i].hi < rs[j].lo)
  }

  /** An empty last range starts as far beyond `max + 1` as identifiers were refused before; once one
      was refused the last range stays empty. */
  ghost predicate Drifted(rs: seq<Range>, max: PktId, refused: nat)
    requires rs != []
  {
    var lo := rs[|rs| - 1].lo;
    if lo > max then lo == max + 1 + refused else refused == 0
  }

  ghost predicate Valid(rs: seq<Range>, max: PktId, refused: nat) {
    Sorted(rs, max) && Drifted(rs, max, refused)
  }

  /** When taking an identifier panics: the last free one is 65535, or none is free and the refusals so
      far have used up the numbers behind `max`. */
  ghost predicate NextOverflows(free: set<int>, max: PktId, refused: nat) {
    free == {65535} || (free == {} && max + 1 + refused == 65535)
  }

  // ---- taking an identifier -----------------------------------------------------------------

  lemma InitialValid(max: PktId)
    ensures Valid([Range(1, max)], max, 0) && Free([Range(1, max)]) == Ids(max)
  {
    var rs := [Range(1, max)];
    assert forall x :: Covered(rs, x) <==> Holds(rs[0], x);
  }

  /** The lowest identifier of a list of several ranges is the start of the first. */
  lemma FirstIsLeast(rs: seq<Range>, max: PktId)
    requires Sorted(rs, max) && (|rs| > 1 || rs[0].lo <= rs[0].hi)
    ensures rs[0].lo in Free(rs) && rs[0].lo <= max
    ensures forall x :: x in Free(rs) ==> rs[0].lo <= x
  {
    assert Holds(rs[0], rs[0].lo);
    assert Covered(rs, rs[0].lo);
  }

  lemma NothingCovered(rs: seq<Range>)
    requires |rs| == 1 && rs[0].lo > rs[0].hi
    ensures Free(rs) == {}
  {
  }

  /** Dropping a first range of one identifier. */
  lemma DropFirst(rs: seq<Range>, max: PktId)
    requires Sorted(rs, max) && |rs| > 1 && rs[0].lo >= rs[0].hi
    ensures Sorted(rs[1..], max) && Free(rs[1..]) == Free(rs) - {rs[0].lo}
  {
    forall x
      ensures Covered(rs[1..], x) <==> Covered(rs, x) && x != rs[0].lo
    {
      if Covered(rs[1..], x) {
        var i :| 0 <= i < |rs[1..]| && Holds(rs[1..][i], x);
        assert Holds(rs[i + 1], x);
      }
      if Covered(rs, x) && x != rs[0].lo {
        var i :| 0 <= i < |rs| && Holds(rs[i], x);
        assert Holds(rs[1..][i - 1], x);
      }
    }
  }

  /** The list with the start of the first range moved up. */
  function Raised(rs: seq<Range>): seq<Range>
    requires rs != [] && rs[0].lo < 65535
  {
    [Range(rs[0].lo + 1, rs[0].hi)] + rs[1..]
  }

  lemma RaisedHolds(rs: seq<Range>, max: PktId, x: int, i: nat)
    requires Sorted(rs, max) && rs[0].lo < 65535 && (rs[0].lo < rs[0].hi || |rs| == 1) && i < |rs|
    ensures Holds(Raised(rs)[i], x) <==> Holds(rs[i], x) && x != rs[0].lo
  {
    assert i > 0 ==> Raised(rs)[i] == rs[i] && rs[0].hi < rs[i].lo;
  }

  lemma RaisedCovered(rs: seq<Range>, max: PktId, x: int)
    requires Sorted(rs, max) && rs[0].lo < 65535 && (rs[0].lo < rs[0].hi || |rs| == 1)
    ensures Covered(Raised(rs), x) <==> Covered(rs, x) && x != rs[0].lo
  {
    var up := Raised(rs);
    assert |up| == |rs|;
    hide Raised, Holds;
    if Covered(up, x) {
      var i :| 0 <= i < |up| && Holds(up[i], x);
      RaisedHolds(rs, max, x, i);
    }
    if Covered(rs, x) && x != rs[0].lo {
      var i :| 0 <= i < |rs| && Holds(rs[i], x);
      RaisedHolds(rs, max, x, i);
    }
  }

  lemma RaisedFree(rs: seq<Range>, max: PktId)
    requires Sorted(rs, max) && rs[0].lo < 65535 && (rs[0].lo < rs[0].hi || |rs| == 1)
    ensures Free(Raised(rs)) == Free(rs) - {rs[0].lo}
  {
    hide Raised, Covered;
    forall x
      ensures Covered(Raised(rs), x) <==> Covered(rs, x) && x != rs[0].lo
    {
      RaisedCovered(rs, max, x);
    }
  }

  lemma RaisedSorted(rs: seq<Range>, max: PktId)
    requires Sorted(rs, max) && rs[0].lo < 65535 && (rs[0].lo < rs[0].hi || |rs| == 1)
    ensures Sorted(Raised(rs), max)
    ensures Raised(rs)[|rs| - 1] == if |rs| == 1 then Range(rs[0].lo + 1, rs[0].hi) else rs[|rs| - 1]
  {
    var up := Raised(rs);
    assert forall i :: 0 < i < |rs| ==> up[i] == rs[i];
  }

  /** A first range of several identifiers loses its first. */
  lemma NextRaised(rs: seq<Range>, max: PktId, refused: nat)
    requires Valid(rs, max, refused) && rs[0].lo < rs[0].hi
    ensures Next(rs) == Issued(rs[0].lo, Raised(rs)) && Valid(Raised(rs), max, refused)
    ensures rs[0].lo in Free(rs) && (forall x :: x in Free(rs) ==> rs[0].lo <= x)
    ensures Free(Raised(rs)) == Free(rs) - {rs[0].lo} && !NextOverflows(Free(rs), max, refused)
  {
    hide Free;
    FirstIsLeast(rs, max);
    RaisedFree(rs, max);
    RaisedSorted(rs, max);
  }

  /** A first range of one identifier with others behind it is dropped. */
  lemma NextDropped(rs: seq<Range>, max: PktId, refused: nat)
    requires Valid(rs, max, refused) && |rs| > 1 && rs[0].lo >= rs[0].hi
    ensures Next(rs) == Issued(rs[0].lo, rs[1..]) && Valid(rs[1..], max, refused)
    ensures rs[0].lo in Free(rs) && (forall x :: x in Free(rs) ==> rs[0].lo <= x)
    ensures Free(rs[1..]) == Free(rs) - {rs[0].lo} && !NextOverflows(Free(rs), max, refused)
  {
    hide Free;
    assert rs[0].hi < rs[1].lo;
    FirstIsLeast(rs, max);
    DropFirst(rs, max);
  }

  lemma NextAlone(rs: seq<Range>, max: PktId, refused: nat)
    requires Valid(rs, max, refused) && |rs| == 1 && rs[0].lo >= rs[0].hi
    ensures match Next(rs)
            case Issued(id, rest) =>
              && Free(rs) == {id} && Valid(rest, max, refused) && Free(rest) == {}
              && !NextOverflows(Free(rs), max, refused)
            case Exhausted(rest) =>
              && Free(rs) == {} == Free(rest) && Valid(rest, max, refused + 1)
              && !NextOverflows(Free(rs), max, refused)
            case Overflow => NextOverflows(Free(rs), max, refused)
  {
    var Range(lo, hi) := rs[0];
    assert forall x :: Covered(rs, x) <==> Holds(rs[0], x);
    if lo < 65535 {
      NothingCovered([Range(lo + 1, hi)]);
    }
  }

  /** Taking an identifier hands out the least free one and removes exactly it; it is refused only when
      none is free; and it panics exactly under `NextOverflows`. */
  lemma NextRefines(rs: seq<Range>, max: PktId, refused: nat)
    requires Valid(rs, max, refused)
    ensures match Next(rs)
            case Issued(id, rest) =>
              && id in Free(rs) && (forall x :: x in Free(rs) ==> id <= x)
              && Valid(rest, max, refused) && Free(rest) == Free(rs) - {id}
              && !NextOverflows(Free(rs), max, refused)
            case Exhausted(rest) =>
              && Free(rs) == {} == Free(rest) && Valid(rest, max, refused + 1)
              && !NextOverflows(Free(rs), max, refused)
            case Overflow => NextOverflows(Free(rs), max, refused)
  {
    assert rs != [];
    hide Free, Valid, Next, NextOverflows;
    if rs[0].lo < rs[0].hi {
      NextRaised(rs, max, refused);
    } else if |rs| > 1 {
      NextDropped(rs, max, refused);
    } else {
      NextAlone(rs, max, refused);
    }
  }

  // ---- giving an identifier back ------------------------------------------------------------

  /** With no identifier below it covered, an identifier splits a sorted list in two. */
  lemma SplitGap(rs: seq<Range>, max: PktId, id: PktId)
    requires Sorted(rs, max) && id <= max && id !in Free(rs)
    ensures var k := Split(rs, id);
            && k < |rs| && (forall i :: 0 <= i < k ==> rs[i].hi < id)
            && (forall i :: k <= i < |rs| ==> id < rs[i].lo)
  {
    var k := Split(rs, id);
    forall i | 0 <= i < k
      ensures rs[i].hi < id
    {
      assert rs[i].lo <= id;
      assert Holds(rs[i], id) ==> Covered(rs, id);
    }
    assert rs[|rs| - 1].hi >= id;
    forall i | k <= i < |rs|
      ensures id < rs[i].lo
    {
      if i > k && k < |rs| - 1 {
        assert rs[k].lo <= rs[k].hi < rs[i].lo;
      }
    }
  }

  /** Extending a range by one identifier next to it. */
  lemma CoverOneMore(rs: seq<Range>, out: seq<Range>, at: nat, id: PktId)
    requires at < |rs| == |out| && (forall i :: 0 <= i < |rs| && i != at ==> out[i] == rs[i])
    requires forall x :: Holds(out[at], x) <==> Holds(rs[at], x) || x == id
    ensures Free(out) == Free(rs) + {id}
  {
    forall x
      ensures Covered(out, x) <==> Covered(rs, x) || x == id
    {
      if Covered(out, x) {
        var i :| 0 <= i < |out| && Holds(out[i], x);
        assert x == id || Holds(rs[i], x);
      }
      if Covered(rs, x) {
        var i :| 0 <= i < |rs| && Holds(rs[i], x);
        assert Holds(out[i], x);
      }
      if x == id {
        assert Holds(out[at], x);
      }
    }
  }

  lemma CoverSingle(rs: seq<Range>, k: nat, id: PktId)
    requires k <= |rs|
    ensures Free(WithRange(rs, k, Range(id, id))) == Free(rs) + {id}
  {
    hide WithRange;
    var out := WithRange(rs, k, Range(id, id));
    forall x
      ensures Covered(out, x) <==> Covered(rs, x) || x == id
    {
      if Covered(out, x) {
        var i :| 0 <= i < |out| && Holds(out[i], x);
        WithRangeIndex(rs, k, Range(id, id), i);
        assert i != k ==> Holds(rs[if i < k then i else i - 1], x);
      }
      if Covered(rs, x) {
        var i :| 0 <= i < |rs| && Holds(rs[i], x);
        var j := if i < k then i else i + 1;
        WithRangeIndex(rs, k, Range(id, id), j);
        assert Holds(out[j], x);
      }
      if x == id {
        WithRangeIndex(rs, k, Range(id, id), k);
        assert Holds(out[k], x);
      }
    }
  }

  lemma SingleSorted(rs: seq<Range>, max: PktId, refused: nat, k: nat, id: PktId)
    requires Valid(rs, max, refused) && k < |rs| && id <= max
    requires (forall i :: 0 <= i < k ==> rs[i].hi < id) && (forall i :: k <= i < |rs| ==> id < rs[i].lo)
    ensures Valid(WithRange(rs, k, Range(id, id)), max, refused)
  {
    hide WithRange;
    var out := WithRange(rs, k, Range(id, id));
    WithRangeParts(rs, k, Range(id, id));
    assert out[|rs|] == rs[|rs| - 1];
    assert Drifted(out, max, refused);
    hide Drifted;
  }

  lemma ExtendUp(rs: seq<Range>, max: PktId, refused: nat, k: nat, id: PktId)
    requires Valid(rs, max, refused) && k < |rs| - 1 && rs[k].hi + 1 == id && id <= max
    requires forall i :: k < i < |rs| ==> id < rs[i].lo
    ensures var out := rs[k := Range(rs[k].lo, id)];
            Valid(out, max, refused) && Free(out) == Free(rs) + {id}
  {
    CoverOneMore(rs, rs[k := Range(rs[k].lo, id)], k, id);
  }

  lemma ExtendDown(rs: seq<Range>, max: PktId, refused: nat, k: nat, id: PktId)
    requires Valid(rs, max, refused) && k < |rs| && rs[k].lo - 1 == id && id <= max
    requires forall i :: 0 <= i < k ==> rs[i].hi < id
    ensures var out := rs[k := Range(id, rs[k].hi)];
            Valid(out, max, refused) && Free(out) == Free(rs) + {id}
  {
    CoverOneMore(rs, rs[k := Range(id, rs[k].hi)], k, id);
  }

  /** An identifier that is not free and not above `max` is added, and nothing else; the list stays
      valid and its last range stays last. */
  lemma InsertRefines(rs: seq<Range>, max: PktId, refused: nat, id: PktId)
    requires Valid(rs, max, refused) && id <= max && id !in Free(rs)
    ensures Insert(rs, id).Merged? && Split(rs, id) < |rs|
    ensures Valid(Insert(rs, id).rest, max, refused) && Free(Insert(rs, id).rest) == Free(rs) + {id}
  {
    hide Free, Split, Sorted, Drifted, WithRange;
    SplitGap(rs, max, id);
    var k := Split(rs, id);
    if k > 0 && rs[k - 1].hi + 1 == id {
      ExtendUp(rs, max, refused, k - 1, id);
    } else if rs[k].lo - 1 == id {
      ExtendDown(rs, max, refused, k, id);
    } else {
      CoverSingle(rs, k, id);
      SingleSorted(rs, max, refused, k, id);
    }
  }

  lemma InsertOverlaps(rs: seq<Range>, max: PktId, id: PktId)
    requires Sorted(rs, max) && id in Free(rs) && Insert(rs, id).Merged?
    ensures !Sorted(Insert(rs, id).rest, max)
  {
    var i :| 0 <= i < |rs| && Holds(rs[i], id);
    var out, k := Insert(rs, id).rest, Split(rs, id);
    assert i + 1 < |rs| ==> rs[i].hi < rs[i + 1].lo;
    assert k == i + 1;
    if k < |rs| && rs[k].lo - 1 == id {
      assert out[i] == rs[i] && out[k].lo == id;
    } else {
      assert out[i] == rs[i] && out[k].lo == id;
    }
  }

  /** Nothing checks the identifier: returning one that is free, or above `max`, never gives a sorted
      list that holds it as a new free identifier. */
  lemma InsertOnlyTaken(rs: seq<Range>, max: PktId, id: PktId)
    requires Sorted(rs, max) && Insert(rs, id).Merged? && Sorted(Insert(rs, id).rest, max)
    requires Free(Insert(rs, id).rest) == Free(rs) + {id}
    ensures id <= max && id !in Free(rs)
  {
    var out, k := Insert(rs, id).rest, Split(rs, id);
    assert id in Free(out);
    var i :| 0 <= i < |out| && Holds(out[i], id);
    assert out[i].hi <= max;
    if id in Free(rs) {
      InsertOverlaps(rs, max, id);
    }
  }

  /** Returning an identifier adds exactly it to a valid list if and only if it was taken. */
  lemma InsertExactly(rs: seq<Range>, max: PktId, refused: nat, id: PktId)
    requires Valid(rs, max, refused)
    ensures (Insert(rs, id).Merged? && Valid(Insert(rs, id).rest, max, refused)
             && Free(Insert(rs, id).rest) == Free(rs) + {id})
            <==> id <= max && id !in Free(rs)
  {
    hide Free, Split, Insert;
    if id <= max && id !in Free(rs) {
      InsertRefines(rs, max, refused, id);
    } else if Insert(rs, id).Merged? && Sorted(Insert(rs, id).rest, max)
              && Free(Insert(rs, id).rest) == Free(rs) + {id} {
      InsertOnlyTaken(rs, max, id);
      assert false;
    }
  }

  /** When the sum behind a range panics: no identifier but 65535 lies behind the list, and the returned
      one is not below the last range. That is never so for an identifier that is taken, nor for a smaller
      maximum. */
  lemma InsertOverflowExactly(rs: seq<Range>, max: PktId, id: PktId)
    requires Sorted(rs, max)
    ensures Insert(rs, id).InsertOverflow? <==> max == 65535 && rs[|rs| - 1].lo <= id
    ensures max == 65535 && rs[|rs| - 1].lo <= id ==> id in Free(rs)
  {
    hide Free;
    var k, last := Split(rs, id), rs[|rs| - 1];
    if k < |rs| {
      assert k < |rs| - 1 ==> rs[k].lo <= rs[k].hi < last.lo;
      assert k > 0 ==> rs[k - 1].hi < rs[k].lo;
    }
    if max == 65535 && last.lo <= id {
      assert Holds(last, id);
      assert Covered(rs, id);
    }
  }

  // ---- what stays whatever is given back ----------------------------------------------------

  /** The last range ends at 65535 and no other does. */
  ghost predicate Full(rs: seq<Range>) {
    && rs != [] && rs[|rs| - 1].hi == 65535
    && forall i :: 0 <= i < |rs| - 1 ==> rs[i].hi < 65535
  }

  /** On a list that has never lost its last range a request is not refused; it panics exactly when 65535
      is all that is left. */
  lemma NextFull(rs: seq<Range>)
    requires Full(rs)
    ensures 65535 in Free(rs) && !Next(rs).Exhausted?
    ensures Next(rs) == Overflow <==> rs == [Range(65535, 65535)]
    ensures Next(rs).Issued? ==> Full(Next(rs).rest)
  {
    assert Holds(rs[|rs| - 1], 65535);
    assert Covered(rs, 65535);
    assert |rs| == 1 ==> rs == [rs[0]];
  }

  /** Giving any identifier back keeps such a list, and panics exactly when every range starts at or below
      it. */
  lemma InsertFull(rs: seq<Range>, id: PktId)
    requires Full(rs)
    ensures Insert(rs, id).InsertOverflow? <==> forall r :: r in rs ==> r.lo <= id
    ensures Insert(rs, id).Merged? ==> Full(Insert(rs, id).rest)
  {
    hide WithRange;
    var k := Split(rs, id);
    if k < |rs| {
      assert rs[k] in rs;
      WithRangeParts(rs, k, Range(id, id));
      assert WithRange(rs, k, Range(id, id))[|rs|] == rs[|rs| - 1];
    }
  }

  // ---- the start of the last range ----------------------------------------------------------

  function LastStart(rs: seq<Range>): PktId
    requires rs != []
  {
    rs[|rs| - 1].lo
  }

  /** Taking an identifier moves the start of the last range up by one exactly when it issues that start. */
  lemma NextLastStart(rs: seq<Range>, max: PktId)
    requires Sorted(rs, max) && Next(rs).Issued? && Next(rs).rest != []
    ensures LastStart(Next(rs).rest) == if Next(rs).id == LastStart(rs) then LastStart(rs) + 1 else LastStart(rs)
  {
    assert |rs| > 1 ==> rs[0].lo <= rs[0].hi < LastStart(rs);
  }

  /** With a gap below it, an identifier that is not free follows one that is not free. */
  lemma NothingJustBelow(rs: seq<Range>, max: PktId, id: PktId)
    requires Sorted(rs, max) && id <= max && id !in Free(rs)
    requires var k := Split(rs, id); k > 0 ==> rs[k - 1].hi + 1 != id
    ensures id - 1 !in Free(rs)
  {
    SplitGap(rs, max, id);
    var k := Split(rs, id);
    forall i | 0 <= i < |rs|
      ensures !Holds(rs[i], id - 1)
    {
      if i + 1 < k {
        assert rs[i].hi < rs[k - 1].lo <= rs[k - 1].hi;
      }
    }
  }

  /** Giving back an identifier that is taken moves it down exactly when that one is just below it and the
      one before is not free, for then it joins the last range and not the one before. */
  lemma InsertLastStart(rs: seq<Range>, max: PktId, id: PktId)
    requires Sorted(rs, max) && id <= max && id !in Free(rs)
    ensures Insert(rs, id).Merged? && Insert(rs, id).rest != []
    ensures LastStart(Insert(rs, id).rest)
         == if id == LastStart(rs) - 1 && id - 1 !in Free(rs) then id else LastStart(rs)
  {
    hide Free, Split, WithRange;
    SplitGap(rs, max, id);
    var k, n := Split(rs, id), |rs|;
    WithRangeIndex(rs, k, Range(id, id), n);
    if k > 0 && rs[k - 1].hi + 1 == id {
      assert Holds(rs[k - 1], id - 1);
      assert Covered(rs, id - 1);
    } else {
      NothingJustBelow(rs, max, id);
    }
  }

  // ---- how many ranges ----------------------------------------------------------------------

  ghost function Starts(rs: seq<Range>, n: nat): (s: set<PktId>)
    requires n <= |rs|
    ensures forall x :: x in s ==> exists i :: 0 <= i < n && rs[i].lo == x
  {
    if n == 0 then {} else Starts(rs, n - 1) + {rs[n - 1].lo}
  }

  lemma NoStarts(rs: seq<Range>)
    ensures Starts(rs, 0) == {}
  {
  }

  lemma StartsStep(rs: seq<Range>, n: nat)
    requires 0 < n <= |rs|
    ensures Starts(rs, n) == Starts(rs, n - 1) + {rs[n - 1].lo}
  {
  }

  lemma StartsFresh(rs: seq<Range>, max: PktId, n: nat)
    requires Sorted(rs, max) && n < |rs| - 1
    ensures rs[n].lo in Free(rs) && rs[n].lo !in Starts(rs, n)
  {
    hide Starts;
    assert Holds(rs[n], rs[n].lo);
    assert Covered(rs, rs[n].lo);
    forall i | 0 <= i < n
      ensures rs[i].lo != rs[n].lo
    {
      assert rs[i].lo <= rs[i].hi < rs[n].lo;
    }
  }

  /** Every range but the last holds an identifier of its own. */
  lemma {:induction false} StartsCount(rs: seq<Range>, max: PktId, n: nat)
    requires Sorted(rs, max) && n < |rs|
    ensures |Starts(rs, n)| == n && Starts(rs, n) <= Free(rs)
  {
    hide Free, Sorted, Starts;
    if n == 0 {
      NoStarts(rs);
    } else {
      StartsCount(rs, max, n - 1);
      StartsFresh(rs, max, n - 1);
      StartsStep(rs, n);
    }
  }

  lemma SubsetSize(a: set<int>, b: set<int>)
    requires a <= b
    ensures |a| <= |b|
  {
    assert b == a + (b - a);
  }

  /** There is at most one range more than there are free identifiers. */
  lemma RangesBound(rs: seq<Range>, max: PktId)
    requires Sorted(rs, max)
    ensures |rs| <= |Free(rs)| + 1
  {
    hide Free;
    StartsCount(rs, max, |rs| - 1);
    SubsetSize(Starts(rs, |rs| - 1), Free(rs));
  }

  lemma {:induction false} IdsSize(max: PktId)
    ensures |Ids(max)| == max
  {
    if max == 1 {
      assert Ids(1) == {1};
    } else {
      IdsSize(max - 1);
      assert Ids(max) == Ids(max - 1) + {max};
    }
  }

  /** A valid list never has more than `max + 1` ranges. */
  lemma RangesAtMost(rs: seq<Range>, max: PktId)
    requires Sorted(rs, max)
    ensures Free(rs) <= Ids(max) && |rs| <= max + 1
  {
    assert Free(rs) <= Ids(max);
    RangesBound(rs, max);
    IdsSize(max);
    SubsetSize(Free(rs), Ids(max));
  }

  // ---- whole runs ---------------------------------------------------------------------------

  /** What a caller sees of one call. */
  datatype Call = Took(id: PktId) | Refused | Gave(id: PktId)

  /** The identifiers a caller holds after the calls of a log. */
  ghost function Held(log: seq<Call>): set<int> {
    if log == [] then {}
    else
      var before := Held(log[..|log| - 1]);
      match log[|log| - 1]
      case Took(id) => before + {id}
      case Refused => before
      case Gave(id) => before - {id}
  }

  ghost function Refusals(log: seq<Call>): nat {
    if log == [] then 0 else Refusals(log[..|log| - 1]) + if log[|log| - 1] == Refused then 1 else 0
  }

  /** Only identifiers that are held are given back. */
  ghost predicate Legal(log: seq<Call>) {
    forall i :: 0 <= i < |log| && log[i].Gave? ==> log[i].id in Held(log[..i])
  }

  ghost predicate Step(rs: seq<Range>, call: Call, out: seq<Range>) {
    match call
    case Took(id) => rs != [] && Next(rs) == Issued(id, out)
    case Refused => rs != [] && Next(rs) == Exhausted(out)
    case Gave(id) => Insert(rs, id) == Merged(out)
  }

  /** `lists` are the free lists between the calls of `log`, from a new allocator on. */
  ghost predicate Run(log: seq<Call>, lists: seq<seq<Range>>, max: PktId) {
    && |lists| == |log| + 1 && lists[0] == [Range(1, max)]
    && forall i :: 0 <= i < |log| ==> Step(lists[i], log[i], lists[i + 1])
  }

  /** Free and held identifiers are all of them, each once; the free list is valid. */
  ghost predicate Partition(log: seq<Call>, rs: seq<Range>, max: PktId) {
    Valid(rs, max, Refusals(log)) && Free(rs) !! Held(log) && Free(rs) + Held(log) == Ids(max)
  }

  lemma StepKeepsPartition(log: seq<Call>, rs: seq<Range>, call: Call, out: seq<Range>, max: PktId)
    requires Partition(log, rs, max) && Step(rs, call, out) && (call.Gave? ==> call.id in Held(log))
    ensures Partition(log + [call], out, max)
    ensures call.Took? ==> call.id !in Held(log) && forall x :: 1 <= x < call.id ==> x in Held(log)
    ensures call.Refused? ==> Held(log) == Ids(max)
  {
    hide Free, Valid, Next, Insert, NextOverflows;
    assert (log + [call])[..|log|] == log;
    if call.Gave? {
      assert call.id in Ids(max);
      InsertRefines(rs, max, Refusals(log), call.id);
    } else {
      NextRefines(rs, max, Refusals(log));
      if call.Took? {
        assert forall x :: 1 <= x < call.id && call.id in Ids(max) ==> x in Ids(max);
      }
    }
  }

  lemma NewPartition(max: PktId)
    ensures Partition([], [Range(1, max)], max)
  {
    InitialValid(max);
  }

  lemma {:induction false} PrefixPartition(log: seq<Call>, lists: seq<seq<Range>>, max: PktId, n: nat)
    requires Run(log, lists, max) && Legal(log) && n <= |log|
    ensures Partition(log[..n], lists[n], max)
  {
    hide Partition, Step;
    if n == 0 {
      NewPartition(max);
      assert log[..0] == [];
    } else {
      PrefixPartition(log, lists, max, n - 1);
      assert log[..n] == log[..n - 1] + [log[n - 1]];
      StepKeepsPartition(log[..n - 1], lists[n - 1], log[n - 1], lists[n], max);
    }
  }

  /** In every legal run, free and held identifiers partition `1..max` after every call; an identifier
      is issued only when it is not held, and then it is the least such; and a call is refused only when
      all are held. */
  lemma RunsPartition(log: seq<Call>, lists: seq<seq<Range>>, max: PktId)
    requires Run(log, lists, max) && Legal(log)
    ensures Partition(log, lists[|log|], max)
    ensures forall i :: 0 <= i < |log| && log[i].Took? ==>
              log[i].id !in Held(log[..i]) && forall x :: 1 <= x < log[i].id ==> x in Held(log[..i])
    ensures forall i :: 0 <= i < |log| && log[i].Refused? ==> Held(log[..i]) == Ids(max)
  {
    hide Partition, Step, Held, Ids;
    PrefixPartition(log, lists, max, |log|);
    assert log[..|log|] == log;
    forall i | 0 <= i < |log|
      ensures log[i].Took? ==>
                log[i].id !in Held(log[..i]) && forall x :: 1 <= x < log[i].id ==> x in Held(log[..i])
      ensures log[i].Refused? ==> Held(log[..i]) == Ids(max)
    {
      PrefixPartition(log, lists, max, i);
      StepKeepsPartition(log[..i], lists[i], log[i], lists[i + 1], max);
    }
  }

  /** The exact bound on the 16-bit arithmetic: after a legal run the next request panics if and only if
      65535 is the one identifier left, or none is left and `65534 - max` requests were refused. */
  lemma RunOverflow(log: seq<Call>, lists: seq<seq<Range>>, max: PktId)
    requires Run(log, lists, max) && Legal(log)
    ensures lists[|log|] != []
    ensures Next(lists[|log|]) == Overflow
            <==> Held(log) == Ids(max) - {65535} && (max == 65535 || Refusals(log) == 65534 - max)
  {
    RunsPartition(log, lists, max);
    NextRefines(lists[|log|], max, Refusals(log));
    var free := Free(lists[|log|]);
    assert free == Ids(max) - Held(log) && Held(log) == Ids(max) - free;
    assert 65535 in Ids(max) <==> max == 65535;
    if NextOverflows(free, max, Refusals(log)) && max == 65535 {
      assert free == {65535};
    }
  }

  lemma LegalPrefix(log: seq<Call>, call: Call)
    requires Legal(log + [call])
    ensures Legal(log) && (call.Gave? ==> call.id in Held(log))
  {
    hide Held;
    var longer := log + [call];
    assert forall i :: 0 <= i < |log| ==> longer[i] == log[i] && longer[..i] == log[..i];
    assert longer[|log|] == call && longer[..|log|] == log;
  }

  /** After a legal run, giving back what is held never panics. */
  lemma RunGivesBack(log: seq<Call>, lists: seq<seq<Range>>, max: PktId, id: PktId)
    requires Run(log, lists, max) && Legal(log + [Gave(id)])
    ensures Insert(lists[|log|], id).Merged?
    ensures Partition(log + [Gave(id)], Insert(lists[|log|], id).rest, max)
  {
    hide Free, Valid, Insert, Held;
    LegalPrefix(log, Gave(id));
    RunsPartition(log, lists, max);
    assert id in Ids(max);
    InsertRefines(lists[|log|], max, Refusals(log), id);
    var out := Insert(lists[|log|], id).rest;
    assert Step(lists[|log|], Gave(id), out);
    StepKeepsPartition(log, lists[|log|], Gave(id), out, max);
  }

  /** With all 65535 identifiers and two of them free before a request, nothing ever overflows, no request
      is refused, and 65535 is not issued. */
  lemma TwoFreeIsSafe(log: seq<Call>, lists: seq<seq<Range>>)
    requires Run(log, lists, 65535) && Legal(log) && |Held(log)| <= 65533
    ensures lists[|log|] != [] && Next(lists[|log|]).Issued? && Next(lists[|log|]).id < 65535
  {
    RunsPartition(log, lists, 65535);
    var rs := lists[|log|];
    NextRefines(rs, 65535, Refusals(log));
    IdsSize(65535);
    assert Free(rs) == Ids(65535) - Held(log);
    assert |Ids(65535)| == |Free(rs)| + |Held(log)|;
    assert 65535 in Free(rs) && (forall x :: x in Free(rs) ==> 65535 <= x) ==> Free(rs) == {65535};
  }

  // ---- a run that is not legal --------------------------------------------------------------

  const DOUBLE_RETURN: seq<Call> := [Gave(2), Took(1), Took(2), Took(3), Took(2)]

  const DOUBLE_RETURN_LISTS: seq<seq<Range>> :=
    [[Range(1, 3)], [Range(1, 3), Range(2, 2)], [Range(2, 3), Range(2, 2)], [Range(3, 3), Range(2, 2)],
     [Range(2, 2)], [Range(3, 2)]]

  lemma DoubleReturnSteps()
    ensures Step([Range(1, 3)], Gave(2), [Range(1, 3), Range(2, 2)])
    ensures Step([Range(1, 3), Range(2, 2)], Took(1), [Range(2, 3), Range(2, 2)])
    ensures Step([Range(2, 3), Range(2, 2)], Took(2), [Range(3, 3), Range(2, 2)])
    ensures Step([Range(3, 3), Range(2, 2)], Took(3), [Range(2, 2)])
    ensures Step([Range(2, 2)], Took(2), [Range(3, 2)])
  {
    assert Split([Range(1, 3)], 2) == 1;
    assert [Range(1, 3), Range(2, 2)][1..] == [Range(2, 2)];
    assert [Range(2, 3), Range(2, 2)][1..] == [Range(2, 2)];
    assert [Range(3, 3), Range(2, 2)][1..] == [Range(2, 2)];
    assert [Range(2, 2)][1..] == [];
  }

  lemma DoubleReturnHeld()
    ensures 2 in Held([Gave(2), Took(1), Took(2), Took(3)])
  {
    assert [Gave(2), Took(1), Took(2), Took(3)][..3] == [Gave(2), Took(1), Took(2)];
    assert 2 in Held([Gave(2), Took(1), Took(2)]);
  }

  /** What goes wrong otherwise: in this run of an allocator of three identifiers, one that was never taken
      is given back and then issued twice, the second time while it is held. */
  lemma ReturnedTwiceIsIssuedTwice()
    ensures Run(DOUBLE_RETURN, DOUBLE_RETURN_LISTS, 3) && !Legal(DOUBLE_RETURN)
    ensures DOUBLE_RETURN[4] == Took(2) && 2 in Held(DOUBLE_RETURN[..4])
  {
    DoubleReturnSteps();
    DoubleReturnHeld();
    assert DOUBLE_RETURN[0] == Gave(2) && DOUBLE_RETURN[..0] == [];
    assert DOUBLE_RETURN[0].id !in Held(DOUBLE_RETURN[..0]);
  }
}
