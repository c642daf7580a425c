/**
  The flash map of the documentation: gaps between partitions become padding entries
  (docs/_extensions/memory_data.py).
 */
module PartitionGaps {
  import opened Basics

  /** One partition; `ram` marks the ones that are not in flash. */
  datatype Part = Part(id: string, caption: string, ram: bool, sizeKb: real, offset: Option<int>, order: int)

  const PADDING: string := "padding"
  const PADDING_LABEL: string := "Unused"

  /** Python's round(): to the nearest integer, halves to the even one. */
  function Round(x: real): int {
    var f := x.Floor;
    var d := x - f as real;
    if d < 0.5 || (d == 0.5 && f % 2 == 0) then f else f + 1
  }

  function SizeBytes(p: Part): int {
    Round(p.sizeKb * 1024.0)
  }

  function PaddingPart(offset: int, size: int): Part {
    Part(PADDING, PADDING_LABEL, false, Round(size as real / 1024.0) as real, Some(offset), 0)
  }

  predicate IsReal(p: Part) {
    p.id != PADDING && !p.ram
  }

  function Reals(ps: seq<Part>): (r: seq<Part>)
    ensures forall i :: 0 <= i < |r| ==> IsReal(r[i])
  {
    if ps == [] then [] else (if IsReal(ps[0]) then [ps[0]] else []) + Reals(ps[1..])
  }

  predicate AllPlaced(ps: seq<Part>) {
    forall i :: 0 <= i < |ps| ==> ps[i].offset.Some?
  }

  // ---------- sorted(): stable ----------

  /** The sort key: the offset where every partition has one, the order otherwise. */
  function Key(p: Part, byOffset: bool): int {
    if byOffset && p.offset.Some? then p.offset.value else p.order
  }

  predicate Ascending(ps: seq<Part>, byOffset: bool) {
    forall i :: 0 < i < |ps| ==> Key(ps[i - 1], byOffset) <= Key(ps[i], byOffset)
  }

  function Insert(p: Part, ps: seq<Part>, byOffset: bool): (r: seq<Part>)
    ensures |r| == |ps| + 1 && (r[0] == p || (ps != [] && r[0] == ps[0]))
  {
    if ps == [] || Key(p, byOffset) <= Key(ps[0], byOffset) then [p] + ps
    else [ps[0]] + Insert(p, ps[1..], byOffset)
  }

  function Sorted(ps: seq<Part>, byOffset: bool): (r: seq<Part>)
    ensures |r| == |ps|
  {
    if ps == [] then [] else Insert(ps[0], Sorted(ps[1..], byOffset), byOffset)
  }

  lemma {:induction false} InsertKeeps(p: Part, ps: seq<Part>, byOffset: bool)
    requires Ascending(ps, byOffset)
    ensures Ascending(Insert(p, ps, byOffset), byOffset)
    ensures multiset(Insert(p, ps, byOffset)) == multiset([p]) + multiset(ps)
  {
    if ps != [] && Key(p, byOffset) > Key(ps[0], byOffset) {
      assert ps == [ps[0]] + ps[1..];
      InsertKeeps(p, ps[1..], byOffset);
    }
  }

  lemma {:induction false} SortedKeeps(ps: seq<Part>, byOffset: bool)
    ensures Ascending(Sorted(ps, byOffset), byOffset)
    ensures multiset(Sorted(ps, byOffset)) == multiset(ps)
  {
    if ps != [] {
      assert ps == [ps[0]] + ps[1..];
      SortedKeeps(ps[1..], byOffset);
      InsertKeeps(ps[0], Sorted(ps[1..], byOffset), byOffset);
    }
  }

  /** The partitions with one key, in the order they stand in. */
  function WithKey(ps: seq<Part>, key: int, byOffset: bool): seq<Part> {
    if ps == [] then []
    else (if Key(ps[0], byOffset) == key then [ps[0]] else []) + WithKey(ps[1..], key, byOffset)
  }

  lemma {:induction false} InsertIsStable(p: Part, ps: seq<Part>, key: int, byOffset: bool)
    ensures WithKey(Insert(p, ps, byOffset), key, byOffset)
         == (if Key(p, byOffset) == key then [p] else []) + WithKey(ps, key, byOffset)
  {
    if ps == [] || Key(p, byOffset) <= Key(ps[0], byOffset) {
      assert ([p] + ps)[1..] == ps;
    } else {
      var rest := Insert(p, ps[1..], byOffset);
      InsertIsStable(p, ps[1..], key, byOffset);
      assert ([ps[0]] + rest)[1..] == rest;
    }
  }

  /** Partitions with equal keys keep their order. */
  lemma {:induction false} SortedIsStable(ps: seq<Part>, key: int, byOffset: bool)
    ensures WithKey(Sorted(ps, byOffset), key, byOffset) == WithKey(ps, key, byOffset)
  {
    if ps != [] {
      SortedIsStable(ps[1..], key, byOffset);
      InsertIsStable(ps[0], Sorted(ps[1..], byOffset), key, byOffset);
    }
  }

  lemma {:induction false} SortedOfAscending(ps: seq<Part>, byOffset: bool)
    requires Ascending(ps, byOffset)
    ensures Sorted(ps, byOffset) == ps
  {
    if ps != [] {
      SortedOfAscending(ps[1..], byOffset);
    }
  }

  // ---------- The sweep ----------

  function Max(a: int, b: int): int {
    if a < b then b else a
  }

  function Sweep(ps: seq<Part>, cursor: int, flashEnd: Option<int>): seq<Part>
    requires AllPlaced(ps)
  {
    if ps == [] then
      if flashEnd.Some? && cursor < flashEnd.value then [PaddingPart(cursor, flashEnd.value - cursor)] else []
    else
      var offset := ps[0].offset.value;
      (if offset > cursor then [PaddingPart(cursor, offset - cursor)] else [])
      + [ps[0]] + Sweep(ps[1..], Max(cursor, offset + SizeBytes(ps[0])), flashEnd)
  }

  function Numbered(ps: seq<Part>): (r: seq<Part>)
    ensures |r| == |ps|
  {
    seq(|ps|, i requires 0 <= i < |ps| => ps[i].(order := i))
  }

  function UsedKb(ps: seq<Part>): real {
    if ps == [] then 0.0 else UsedKb(ps[..|ps| - 1]) + ps[|ps| - 1].sizeKb
  }

  function Expand(partitions: seq<Part>, flashTotalKb: Option<real>): seq<Part> {
    var parts := Reals(partitions);
    if AllPlaced(parts) then
      PlacedStaysPlaced(parts);
      if parts == [] then []
      else Numbered(Sweep(Sorted(parts, true), 0, FlashEnd(flashTotalKb)))
    else
      var ordered := Sorted(parts, false);
      var used := UsedKb(ordered);
      if flashTotalKb.None? || flashTotalKb.value <= used then ordered
      else ordered + [Part(PADDING, PADDING_LABEL, false, flashTotalKb.value - used, None, |ordered|)]
  }

  function FlashEnd(flashTotalKb: Option<real>): Option<int> {
    if flashTotalKb.Some? then Some(Round(flashTotalKb.value * 1024.0)) else None
  }

  lemma PlacedStaysPlaced(ps: seq<Part>)
    requires AllPlaced(ps)
    ensures AllPlaced(Sorted(ps, true)) && Ascending(Sorted(ps, true), true)
  {
    var r := Sorted(ps, true);
    SortedKeeps(ps, true);
    forall i | 0 <= i < |r| ensures r[i].offset.Some? {
      assert r[i] in multiset(r);
    }
  }

  method ExpandPartitionGaps(partitions: seq<Part>, flashTotalKb: Option<real>) returns (expanded: seq<Part>)
    ensures expanded == Expand(partitions, flashTotalKb)
  {
    var parts := Reals(partitions);
    if parts == [] {
      return [];
    }
    if AllPlaced(parts) {
      PlacedStaysPlaced(parts);
      expanded := FillGaps(Sorted(parts, true), FlashEnd(flashTotalKb));
      expanded := Number(expanded);
      return;
    }
    expanded := Sorted(parts, false);
    if flashTotalKb.Some? {
      var usedKb := SumKb(expanded);
      if flashTotalKb.value > usedKb {
        expanded := expanded + [Part(PADDING, PADDING_LABEL, false, flashTotalKb.value - usedKb, None, |expanded|)];
      }
    }
  }

  method FillGaps(ordered: seq<Part>, flashEnd: Option<int>) returns (expanded: seq<Part>)
    requires AllPlaced(ordered)
    ensures expanded == Sweep(ordered, 0, flashEnd)
  {
    hide Sweep;
    expanded := [];
    var cursor := 0;
    assert ordered[0..] == ordered;
    for i := 0 to |ordered|
      invariant expanded + Sweep(ordered[i..], cursor, flashEnd) == Sweep(ordered, 0, flashEnd)
    {
      var part := ordered[i];
      var offset := part.offset.value;
      SweepRound(ordered, i, cursor, flashEnd, expanded);
      if offset > cursor {
        expanded := expanded + [PaddingPart(cursor, offset - cursor)];
      }
      expanded := expanded + [part];
      cursor := Max(cursor, offset + SizeBytes(part));
    }
    SweepEnd(cursor, flashEnd);
    assert ordered[|ordered|..] == [];
    if flashEnd.Some? && cursor < flashEnd.value {
      expanded := expanded + [PaddingPart(cursor, flashEnd.value - cursor)];
    }
  }

  /** One round of the loop: what the sweep adds to `done` next, and what is left. */
  lemma SweepRound(ordered: seq<Part>, i: nat, cursor: int, flashEnd: Option<int>, done: seq<Part>)
    requires AllPlaced(ordered) && i < |ordered|
    ensures AllPlaced(ordered[i..]) && AllPlaced(ordered[i + 1..])
    ensures done + Sweep(ordered[i..], cursor, flashEnd)
         == (if ordered[i].offset.value > cursor
             then done + [PaddingPart(cursor, ordered[i].offset.value - cursor)] else done)
          + [ordered[i]]
          + Sweep(ordered[i + 1..], Max(cursor, ordered[i].offset.value + SizeBytes(ordered[i])), flashEnd)
  {
    hide Round, SizeBytes;
    assert ordered[i..][1..] == ordered[i + 1..];
  }

  lemma SweepEnd(cursor: int, flashEnd: Option<int>)
    ensures Sweep([], cursor, flashEnd)
         == if flashEnd.Some? && cursor < flashEnd.value then [PaddingPart(cursor, flashEnd.value - cursor)] else []
  {
  }

  method Number(ps: seq<Part>) returns (r: seq<Part>)
    ensures r == Numbered(ps)
  {
    r := ps;
    for i := 0 to |ps|
      invariant |r| == |ps|
      invariant forall k :: 0 <= k < |ps| ==> r[k] == if k < i then ps[k].(order := k) else ps[k]
    {
      r := r[i := r[i].(order := i)];
    }
  }

  method SumKb(ps: seq<Part>) returns (usedKb: real)
    ensures usedKb == UsedKb(ps)
  {
    usedKb := 0.0;
    for i := 0 to |ps|
      invariant usedKb == UsedKb(ps[..i])
    {
      usedKb := usedKb + ps[i].sizeKb;
      assert ps[..i + 1][..i] == ps[..i];
    }
    assert ps[..|ps|] == ps;
  }

  // ---------- Entry by entry ----------

  predicate Nearest(n: int, x: real) {
    -0.5 <= x - n as real <= 0.5 && (x - n as real == 0.5 || x - n as real == -0.5 ==> n % 2 == 0)
  }

  lemma RoundIsNearest(x: real)
    ensures Nearest(Round(x), x)
  {
  }

  /** Sizes in bytes are the nearest to 1024 times those in KB. */
  lemma BytesAreNearest(p: Part, total: real)
    ensures Nearest(SizeBytes(p), p.sizeKb * 1024.0)
    ensures FlashEnd(Some(total)).Some? && Nearest(FlashEnd(Some(total)).value, total * 1024.0)
    ensures FlashEnd(None).None?
  {
    RoundIsNearest(p.sizeKb * 1024.0);
    RoundIsNearest(total * 1024.0);
  }

  /** An entry for unused flash. */
  predicate IsPadding(p: Part) {
    p.id == "padding" && p.caption == "Unused" && !p.ram
  }

  /** A gap's entry starts where the gap does, and its size is the nearest number of KB. */
  lemma PaddingIs(offset: int, size: int) returns (kb: int)
    ensures IsPadding(PaddingPart(offset, size)) && PaddingPart(offset, size).offset == Some(offset)
    ensures PaddingPart(offset, size).sizeKb == kb as real && Nearest(kb, size as real / 1024.0)
  {
    kb := Round(size as real / 1024.0);
    RoundIsNearest(size as real / 1024.0);
  }

  /** How many entries are partitions of the flash. */
  function FlashParts(ps: seq<Part>): nat {
    if ps == [] then 0 else (if ps[0].id != "padding" && !ps[0].ram then 1 else 0) + FlashParts(ps[1..])
  }

  /** Those partitions, and no others, behind one another. */
  lemma {:induction false} RealsAre(ps: seq<Part>)
    ensures |Reals(ps)| == FlashParts(ps)
    ensures forall i :: 0 <= i < |ps| && ps[i].id != "padding" && !ps[i].ram ==>
              FlashParts(ps[..i]) < |Reals(ps)| && Reals(ps)[FlashParts(ps[..i])] == ps[i]
  {
    if ps != [] {
      RealsAre(ps[1..]);
      forall i | 0 <= i < |ps| && ps[i].id != "padding" && !ps[i].ram
        ensures FlashParts(ps[..i]) < |Reals(ps)| && Reals(ps)[FlashParts(ps[..i])] == ps[i]
      {
        if i > 0 {
          assert ps[..i][1..] == ps[1..][..i - 1] && ps[1..][i - 1] == ps[i];
        }
      }
    }
  }

  lemma {:induction false} SweepAddsPadding(ps: seq<Part>, cursor: int, flashEnd: Option<int>)
    requires AllPlaced(ps)
    ensures forall i :: 0 <= i < |Sweep(ps, cursor, flashEnd)| ==>
              Sweep(ps, cursor, flashEnd)[i] in ps || IsPadding(Sweep(ps, cursor, flashEnd)[i])
  {
    hide Round, SizeBytes;
    if ps != [] {
      SweepAddsPadding(ps[1..], Max(cursor, ps[0].offset.value + SizeBytes(ps[0])), flashEnd);
    }
  }

  /**
    Where all partitions have an offset the entries are numbered from 0. Nothing but entries for unused
    flash is added, and without partitions of the flash there is no map.
   */
  lemma EntriesAre(partitions: seq<Part>, flashTotalKb: Option<real>)
    ensures AllPlaced(Reals(partitions)) ==>
              forall i :: 0 <= i < |Expand(partitions, flashTotalKb)| ==> Expand(partitions, flashTotalKb)[i].order == i
    ensures forall i :: 0 <= i < |Expand(partitions, flashTotalKb)| ==>
              IsReal(Expand(partitions, flashTotalKb)[i]) || IsPadding(Expand(partitions, flashTotalKb)[i])
    ensures Reals(partitions) == [] ==> Expand(partitions, flashTotalKb) == []
  {
    SortedReals(partitions, true);
    SortedReals(partitions, false);
    if AllPlaced(Reals(partitions)) {
      PlacedStaysPlaced(Reals(partitions));
      SweepAddsPadding(Sorted(Reals(partitions), true), 0, FlashEnd(flashTotalKb));
    }
    hide Sweep, Sorted, Reals, FlashEnd;
  }

  // ---------- Tiling ----------

  lemma RoundOfInt(k: int)
    ensures Round(k as real) == k
  {
  }

  /** A padding entry says its size in whole KB: that is the gap exactly for a multiple of 1024 bytes. */
  lemma PaddingIsExactIff(offset: int, size: int)
    ensures SizeBytes(PaddingPart(offset, size)) == size <==> size % 1024 == 0
  {
    var k := Round(size as real / 1024.0);
    assert k as real * 1024.0 == (k * 1024) as real;
    RoundOfInt(k * 1024);
    if size % 1024 == 0 {
      var q := size / 1024;
      assert size as real / 1024.0 == q as real;
      RoundOfInt(q);
    }
  }

  predicate Covers(p: Part, b: int) {
    p.offset.Some? && p.offset.value <= b < p.offset.value + SizeBytes(p)
  }

  /** How many padding entries show byte `b` as unused. */
  function Paddings(ps: seq<Part>, b: int): nat {
    if ps == [] then 0 else (if ps[0].id == PADDING && Covers(ps[0], b) then 1 else 0) + Paddings(ps[1..], b)
  }

  predicate InUse(ps: seq<Part>, b: int) {
    exists i :: 0 <= i < |ps| && IsReal(ps[i]) && Covers(ps[i], b)
  }

  /** Where the map ends: at the end of the flash or of the partition that reaches furthest. */
  function End(ps: seq<Part>, cursor: int, flashEnd: Option<int>): int
    requires AllPlaced(ps)
  {
    if ps == [] then (if flashEnd.Some? then Max(cursor, flashEnd.value) else cursor)
    else End(ps[1..], Max(cursor, ps[0].offset.value + SizeBytes(ps[0])), flashEnd)
  }

  /** Every gap of the sweep is a whole number of KB. */
  predicate WholeKbGaps(ps: seq<Part>, cursor: int, flashEnd: Option<int>)
    requires AllPlaced(ps)
  {
    if ps == [] then
      flashEnd.Some? && cursor < flashEnd.value ==> (flashEnd.value - cursor) % 1024 == 0
    else
      && (ps[0].offset.value > cursor ==> (ps[0].offset.value - cursor) % 1024 == 0)
      && WholeKbGaps(ps[1..], Max(cursor, ps[0].offset.value + SizeBytes(ps[0])), flashEnd)
  }

  /** Byte `b` is in a partition, or in exactly one padding entry, and in both never. */
  predicate Tiled(ps: seq<Part>, expanded: seq<Part>, end: int, b: int) {
    Paddings(expanded, b) == if InUse(ps, b) || b >= end then 0 else 1
  }

  lemma {:induction false} PaddingsAppend(a: seq<Part>, c: seq<Part>, b: int)
    ensures Paddings(a + c, b) == Paddings(a, b) + Paddings(c, b)
  {
    if a == [] {
      assert a + c == c;
    } else {
      assert (a + c)[1..] == a[1..] + c;
      PaddingsAppend(a[1..], c, b);
    }
  }

  /** No padding entry starts before the cursor, so bytes before it are in none. */
  lemma {:induction false} NothingBeforeCursor(ps: seq<Part>, cursor: int, flashEnd: Option<int>, b: int)
    requires AllPlaced(ps) && b < cursor
    requires forall i :: 0 <= i < |ps| ==> IsReal(ps[i])
    ensures Paddings(Sweep(ps, cursor, flashEnd), b) == 0
  {
    hide Round, SizeBytes;
    if ps != [] {
      var offset := ps[0].offset.value;
      var gap := if offset > cursor then [PaddingPart(cursor, offset - cursor)] else [];
      var next := Max(cursor, offset + SizeBytes(ps[0]));
      NothingBeforeCursor(ps[1..], next, flashEnd, b);
      PaddingsAppend(gap + [ps[0]], Sweep(ps[1..], next, flashEnd), b);
      PaddingsAppend(gap, [ps[0]], b);
    }
  }

  /** Partitions as the sweep gets them. */
  ghost predicate Sweepable(ps: seq<Part>, least: int) {
    && AllPlaced(ps) && Ascending(ps, true)
    && forall i :: 0 <= i < |ps| ==> IsReal(ps[i]) && SizeBytes(ps[i]) >= least
  }

  lemma {:induction false} FirstIsLowest(ps: seq<Part>, i: nat)
    requires AllPlaced(ps) && Ascending(ps, true) && i < |ps|
    ensures ps[0].offset.value <= ps[i].offset.value
  {
    if i > 0 {
      FirstIsLowest(ps, i - 1);
      assert Key(ps[i - 1], true) <= Key(ps[i], true);
    }
  }

  lemma InUseStep(ps: seq<Part>, b: int)
    requires Sweepable(ps, 0) && ps != []
    ensures InUse(ps, b) <==> Covers(ps[0], b) || InUse(ps[1..], b)
    ensures b < ps[0].offset.value ==> !InUse(ps, b)
    ensures Sweepable(ps[1..], 0)
  {
    if InUse(ps[1..], b) {
      var i :| 0 <= i < |ps| - 1 && IsReal(ps[1..][i]) && Covers(ps[1..][i], b);
      assert Covers(ps[i + 1], b);
    }
    if i :| 0 <= i < |ps| && IsReal(ps[i]) && Covers(ps[i], b) {
      FirstIsLowest(ps, i);
      if i > 0 {
        assert ps[i] == ps[1..][i - 1];
      }
    }
  }

  /** The padding entries of one round of the sweep and of the rest. */
  lemma PaddingsStep(ps: seq<Part>, cursor: int, flashEnd: Option<int>, b: int)
    requires Sweepable(ps, 0) && ps != []
    ensures Paddings(Sweep(ps, cursor, flashEnd), b)
         == (if ps[0].offset.value > cursor && Covers(PaddingPart(cursor, ps[0].offset.value - cursor), b)
             then 1 else 0)
          + Paddings(Sweep(ps[1..], Max(cursor, ps[0].offset.value + SizeBytes(ps[0])), flashEnd), b)
  {
    var offset := ps[0].offset.value;
    var gap := if offset > cursor then [PaddingPart(cursor, offset - cursor)] else [];
    PaddingsAppend(gap + [ps[0]], Sweep(ps[1..], Max(cursor, offset + SizeBytes(ps[0])), flashEnd), b);
    PaddingsAppend(gap, [ps[0]], b);
    assert gap != [] ==> gap[1..] == [];
  }

  lemma {:induction false} EndIsAfterCursor(ps: seq<Part>, cursor: int, flashEnd: Option<int>)
    requires AllPlaced(ps)
    ensures cursor <= End(ps, cursor, flashEnd)
  {
    if ps != [] {
      EndIsAfterCursor(ps[1..], Max(cursor, ps[0].offset.value + SizeBytes(ps[0])), flashEnd);
    }
  }

  lemma {:induction false} SweepTiles(ps: seq<Part>, cursor: int, flashEnd: Option<int>, b: int)
    requires Sweepable(ps, 0) && WholeKbGaps(ps, cursor, flashEnd) && cursor <= b
    ensures Tiled(ps, Sweep(ps, cursor, flashEnd), End(ps, cursor, flashEnd), b)
  {
    hide Round, SizeBytes;
    if ps == [] {
      if flashEnd.Some? {
        PaddingIsExactIff(cursor, flashEnd.value - cursor);
      }
    } else {
      var offset := ps[0].offset.value;
      var next := Max(cursor, offset + SizeBytes(ps[0]));
      InUseStep(ps, b);
      PaddingsStep(ps, cursor, flashEnd, b);
      PaddingIsExactIff(cursor, offset - cursor);
      EndIsAfterCursor(ps[1..], next, flashEnd);
      if b < next {
        NothingBeforeCursor(ps[1..], next, flashEnd, b);
      } else {
        SweepTiles(ps[1..], next, flashEnd, b);
      }
    }
  }

  /** The padding entry of an odd gap ends one byte or more too late or too early. */
  lemma FirstGapOdd(ps: seq<Part>, cursor: int, flashEnd: Option<int>) returns (b: int)
    requires Sweepable(ps, 1) && ps != [] && ps[0].offset.value > cursor && (ps[0].offset.value - cursor) % 1024 != 0
    ensures cursor <= b && !Tiled(ps, Sweep(ps, cursor, flashEnd), End(ps, cursor, flashEnd), b)
  {
    hide Round, SizeBytes, Paddings, Sweep;
    var offset := ps[0].offset.value;
    var next := Max(cursor, offset + SizeBytes(ps[0]));
    PaddingIsExactIff(cursor, offset - cursor);
    EndIsAfterCursor(ps[1..], next, flashEnd);
    b := if SizeBytes(PaddingPart(cursor, offset - cursor)) > offset - cursor then offset else offset - 1;
    NothingBeforeCursor(ps[1..], next, flashEnd, b);
    InUseStep(ps, b);
    PaddingsStep(ps, cursor, flashEnd, b);
  }

  lemma LastGapOdd(cursor: int, flashEnd: int) returns (b: int)
    requires cursor < flashEnd && (flashEnd - cursor) % 1024 != 0
    ensures cursor <= b && !Tiled([], Sweep([], cursor, Some(flashEnd)), End([], cursor, Some(flashEnd)), b)
  {
    hide Round, SizeBytes;
    var pad := PaddingPart(cursor, flashEnd - cursor);
    PaddingIsExactIff(cursor, flashEnd - cursor);
    b := if SizeBytes(pad) > flashEnd - cursor then flashEnd else flashEnd - 1;
    assert [pad][1..] == [] && Paddings([pad], b) == if Covers(pad, b) then 1 else 0;
  }

  /** Behind the cursor of the next round, this round changes nothing. */
  lemma LaterRoundsDecide(ps: seq<Part>, cursor: int, flashEnd: Option<int>, b: int)
    requires Sweepable(ps, 0) && ps != [] && Max(cursor, ps[0].offset.value + SizeBytes(ps[0])) <= b
    requires ps[0].offset.value > cursor ==> (ps[0].offset.value - cursor) % 1024 == 0
    ensures Tiled(ps, Sweep(ps, cursor, flashEnd), End(ps, cursor, flashEnd), b)
       <==> Tiled(ps[1..], Sweep(ps[1..], Max(cursor, ps[0].offset.value + SizeBytes(ps[0])), flashEnd),
                  End(ps[1..], Max(cursor, ps[0].offset.value + SizeBytes(ps[0])), flashEnd), b)
  {
    hide Round;
    PaddingIsExactIff(cursor, ps[0].offset.value - cursor);
    InUseStep(ps, b);
    PaddingsStep(ps, cursor, flashEnd, b);
  }

  /** A gap that is not a whole number of KB leaves a byte that is in no entry, or in two, or past the end. */
  lemma {:induction false} OddGapShows(ps: seq<Part>, cursor: int, flashEnd: Option<int>) returns (b: int)
    requires Sweepable(ps, 1) && !WholeKbGaps(ps, cursor, flashEnd)
    ensures cursor <= b && !Tiled(ps, Sweep(ps, cursor, flashEnd), End(ps, cursor, flashEnd), b)
  {
    hide Tiled, Sweep, End, SizeBytes;
    if ps == [] {
      b := LastGapOdd(cursor, flashEnd.value);
    } else if ps[0].offset.value > cursor && (ps[0].offset.value - cursor) % 1024 != 0 {
      b := FirstGapOdd(ps, cursor, flashEnd);
    } else {
      b := OddGapShows(ps[1..], Max(cursor, ps[0].offset.value + SizeBytes(ps[0])), flashEnd);
      LaterRoundsDecide(ps, cursor, flashEnd, b);
    }
  }

  lemma {:induction false} PaddingsOfNumbered(ps: seq<Part>, qs: seq<Part>, b: int)
    requires |ps| == |qs| && forall i :: 0 <= i < |ps| ==> ps[i].(order := 0) == qs[i].(order := 0)
    ensures Paddings(ps, b) == Paddings(qs, b)
  {
    if ps != [] {
      assert ps[0].(order := 0) == qs[0].(order := 0);
      PaddingsOfNumbered(ps[1..], qs[1..], b);
    }
  }

  lemma InUseOfSorted(ps: seq<Part>, b: int)
    ensures InUse(Sorted(ps, true), b) <==> InUse(ps, b)
  {
    SortedKeeps(ps, true);
    var r := Sorted(ps, true);
    if i :| 0 <= i < |r| && IsReal(r[i]) && Covers(r[i], b) {
      assert r[i] in multiset(ps);
    }
    if i :| 0 <= i < |ps| && IsReal(ps[i]) && Covers(ps[i], b) {
      assert ps[i] in multiset(r);
    }
  }

  lemma SortedIsSweepable(parts: seq<Part>, least: int)
    requires AllPlaced(parts)
    requires forall i :: 0 <= i < |parts| ==> IsReal(parts[i]) && SizeBytes(parts[i]) >= least
    ensures Sweepable(Sorted(parts, true), least)
  {
    PlacedStaysPlaced(parts);
    SortedKeeps(parts, true);
    var r := Sorted(parts, true);
    forall i | 0 <= i < |r| ensures IsReal(r[i]) && SizeBytes(r[i]) >= least {
      assert r[i] in multiset(parts);
    }
  }

  /** The flash map tiles the flash: every byte is in use or in one padding entry. */
  ghost predicate Tiles(partitions: seq<Part>, flashTotalKb: Option<real>)
    requires AllPlaced(Reals(partitions))
  {
    forall b :: 0 <= b ==>
      Tiled(Reals(partitions), Expand(partitions, flashTotalKb), MapEnd(partitions, flashTotalKb), b)
  }

  ghost function MapEnd(partitions: seq<Part>, flashTotalKb: Option<real>): int
    requires AllPlaced(Reals(partitions))
  {
    PlacedStaysPlaced(Reals(partitions));
    End(Sorted(Reals(partitions), true), 0, FlashEnd(flashTotalKb))
  }

  ghost predicate GapsAreWholeKb(partitions: seq<Part>, flashTotalKb: Option<real>)
    requires AllPlaced(Reals(partitions))
  {
    PlacedStaysPlaced(Reals(partitions));
    WholeKbGaps(Sorted(Reals(partitions), true), 0, FlashEnd(flashTotalKb))
  }

  lemma TiledAsSwept(partitions: seq<Part>, flashTotalKb: Option<real>, b: int)
    requires Reals(partitions) != [] && AllPlaced(Reals(partitions))
    ensures AllPlaced(Sorted(Reals(partitions), true))
    ensures Tiled(Reals(partitions), Expand(partitions, flashTotalKb), MapEnd(partitions, flashTotalKb), b)
       <==> Tiled(Sorted(Reals(partitions), true), Sweep(Sorted(Reals(partitions), true), 0, FlashEnd(flashTotalKb)),
                  MapEnd(partitions, flashTotalKb), b)
  {
    PlacedStaysPlaced(Reals(partitions));
    var swept := Sweep(Sorted(Reals(partitions), true), 0, FlashEnd(flashTotalKb));
    PaddingsOfNumbered(Numbered(swept), swept, b);
    InUseOfSorted(Reals(partitions), b);
  }

  /** With whole-KB gaps the map tiles the flash, overlapping and empty partitions included. */
  lemma WholeKbGapsTile(partitions: seq<Part>, flashTotalKb: Option<real>)
    requires Reals(partitions) != [] && AllPlaced(Reals(partitions)) && GapsAreWholeKb(partitions, flashTotalKb)
    requires forall i :: 0 <= i < |Reals(partitions)| ==> SizeBytes(Reals(partitions)[i]) >= 0
    ensures Tiles(partitions, flashTotalKb)
  {
    PlacedStaysPlaced(Reals(partitions));
    SortedIsSweepable(Reals(partitions), 0);
    var ordered, flashEnd := Sorted(Reals(partitions), true), FlashEnd(flashTotalKb);
    forall b | 0 <= b
      ensures Tiled(Reals(partitions), Expand(partitions, flashTotalKb), MapEnd(partitions, flashTotalKb), b)
    {
      SweepTiles(ordered, 0, flashEnd, b);
      TiledAsSwept(partitions, flashTotalKb, b);
    }
  }

  /** With partitions that are not empty it tiles the flash exactly then. */
  lemma TilesIff(partitions: seq<Part>, flashTotalKb: Option<real>)
    requires Reals(partitions) != [] && AllPlaced(Reals(partitions))
    requires forall i :: 0 <= i < |Reals(partitions)| ==> SizeBytes(Reals(partitions)[i]) >= 1
    ensures Tiles(partitions, flashTotalKb) <==> GapsAreWholeKb(partitions, flashTotalKb)
  {
    if GapsAreWholeKb(partitions, flashTotalKb) {
      WholeKbGapsTile(partitions, flashTotalKb);
    } else {
      PlacedStaysPlaced(Reals(partitions));
      SortedIsSweepable(Reals(partitions), 1);
      var b := OddGapShows(Sorted(Reals(partitions), true), 0, FlashEnd(flashTotalKb));
      TiledAsSwept(partitions, flashTotalKb, b);
    }
  }

  // ---------- All real partitions survive; expanding again changes nothing ----------

  predicate SameButOrder(a: seq<Part>, b: seq<Part>) {
    |a| == |b| && forall i :: 0 <= i < |a| ==> a[i].(order := 0) == b[i].(order := 0)
  }

  lemma {:induction false} RealsAppend(a: seq<Part>, b: seq<Part>)
    ensures Reals(a + b) == Reals(a) + Reals(b)
  {
    if a == [] {
      assert a + b == b;
    } else {
      assert (a + b)[1..] == a[1..] + b;
      RealsAppend(a[1..], b);
    }
  }

  lemma {:induction false} RealsOfReals(ps: seq<Part>)
    requires forall i :: 0 <= i < |ps| ==> IsReal(ps[i])
    ensures Reals(ps) == ps
  {
    if ps != [] {
      RealsOfReals(ps[1..]);
    }
  }

  lemma RealsOfRound(gap: seq<Part>, p: Part, rest: seq<Part>)
    requires IsReal(p) && |gap| <= 1 && (gap != [] ==> !IsReal(gap[0]))
    ensures Reals(gap + [p] + rest) == [p] + Reals(rest)
  {
    RealsAppend(gap + [p], rest);
    RealsAppend(gap, [p]);
    assert [p][1..] == [] && Reals([p]) == [p];
    assert gap != [] ==> gap[1..] == [];
  }

  lemma NoRealsAtEnd(cursor: int, flashEnd: Option<int>)
    ensures Reals(Sweep([], cursor, flashEnd)) == []
  {
  }

  lemma {:induction false} RealsOfSweep(ps: seq<Part>, cursor: int, flashEnd: Option<int>)
    requires AllPlaced(ps) && forall i :: 0 <= i < |ps| ==> IsReal(ps[i])
    ensures Reals(Sweep(ps, cursor, flashEnd)) == ps
  {
    hide Round, SizeBytes, Reals;
    if ps == [] {
      NoRealsAtEnd(cursor, flashEnd);
    } else {
      var offset := ps[0].offset.value;
      var gap := if offset > cursor then [PaddingPart(cursor, offset - cursor)] else [];
      RealsOfRound(gap, ps[0], Sweep(ps[1..], Max(cursor, offset + SizeBytes(ps[0])), flashEnd));
      RealsOfSweep(ps[1..], Max(cursor, offset + SizeBytes(ps[0])), flashEnd);
      assert ps == [ps[0]] + ps[1..];
    }
  }

  lemma {:induction false} RealsButOrder(a: seq<Part>, b: seq<Part>)
    requires SameButOrder(a, b)
    ensures SameButOrder(Reals(a), Reals(b))
  {
    if a != [] {
      assert a[0].(order := 0) == b[0].(order := 0);
      RealsButOrder(a[1..], b[1..]);
    }
  }

  lemma {:induction false} SweepButOrder(a: seq<Part>, b: seq<Part>, cursor: int, flashEnd: Option<int>)
    requires SameButOrder(a, b) && AllPlaced(a) && AllPlaced(b)
    ensures SameButOrder(Sweep(a, cursor, flashEnd), Sweep(b, cursor, flashEnd))
  {
    hide Round, SizeBytes;
    if a != [] {
      assert a[0].(order := 0) == b[0].(order := 0);
      SizeIsNotOrder(a[0], b[0]);
      var offset := a[0].offset.value;
      var next := Max(cursor, offset + SizeBytes(a[0]));
      var gap := if offset > cursor then [PaddingPart(cursor, offset - cursor)] else [];
      SweepButOrder(a[1..], b[1..], next, flashEnd);
      RoundButOrder(gap, a[0], b[0], Sweep(a[1..], next, flashEnd), Sweep(b[1..], next, flashEnd));
      hide SameButOrder;
    }
  }

  lemma RoundButOrder(gap: seq<Part>, p: Part, q: Part, x: seq<Part>, y: seq<Part>)
    requires p.(order := 0) == q.(order := 0) && SameButOrder(x, y)
    ensures SameButOrder(gap + [p] + x, gap + [q] + y)
  {
    var k := |gap| + 1;
    assert forall i :: k <= i < k + |x| ==> (gap + [p] + x)[i] == x[i - k] && (gap + [q] + y)[i] == y[i - k];
  }

  lemma SizeIsNotOrder(p: Part, q: Part)
    requires p.(order := 0) == q.(order := 0)
    ensures SizeBytes(p) == SizeBytes(q)
  {
    hide Round;
  }

  lemma NumberedButOrder(a: seq<Part>, b: seq<Part>)
    requires SameButOrder(a, b)
    ensures Numbered(a) == Numbered(b)
  {
    forall i | 0 <= i < |a| ensures Numbered(a)[i] == Numbered(b)[i] {
      assert a[i].(order := 0) == b[i].(order := 0);
    }
  }

  lemma SortedReals(ps: seq<Part>, byOffset: bool)
    ensures forall i :: 0 <= i < |Sorted(Reals(ps), byOffset)| ==> IsReal(Sorted(Reals(ps), byOffset)[i])
  {
    SortedKeeps(Reals(ps), byOffset);
    var r := Sorted(Reals(ps), byOffset);
    forall i | 0 <= i < |r| ensures IsReal(r[i]) {
      assert r[i] in multiset(Reals(ps));
    }
  }

  /** The result holds every real partition once, sorted, with nothing but its order number changed. */
  lemma RealsSurvive(partitions: seq<Part>, flashTotalKb: Option<real>)
    ensures SameButOrder(Reals(Expand(partitions, flashTotalKb)),
                         Sorted(Reals(partitions), AllPlaced(Reals(partitions))))
    ensures multiset(Sorted(Reals(partitions), AllPlaced(Reals(partitions)))) == multiset(Reals(partitions))
    ensures forall key, byOffset ::
              WithKey(Sorted(Reals(partitions), byOffset), key, byOffset) == WithKey(Reals(partitions), key, byOffset)
  {
    var parts := Reals(partitions);
    forall key, byOffset ensures WithKey(Sorted(parts, byOffset), key, byOffset) == WithKey(parts, key, byOffset) {
      SortedIsStable(parts, key, byOffset);
    }
    SortedKeeps(parts, AllPlaced(parts));
    SortedReals(partitions, AllPlaced(parts));
    if AllPlaced(parts) {
      PlacedStaysPlaced(parts);
      var swept := Sweep(Sorted(parts, true), 0, FlashEnd(flashTotalKb));
      RealsOfSweep(Sorted(parts, true), 0, FlashEnd(flashTotalKb));
      RealsButOrder(Numbered(swept), swept);
    } else {
      UnplacedReals(partitions, flashTotalKb);
    }
  }

  lemma UnplacedReals(partitions: seq<Part>, flashTotalKb: Option<real>)
    requires !AllPlaced(Reals(partitions))
    ensures Reals(Expand(partitions, flashTotalKb)) == Sorted(Reals(partitions), false)
  {
    var ordered := Sorted(Reals(partitions), false);
    SortedReals(partitions, false);
    RealsOfReals(ordered);
    var rest := Expand(partitions, flashTotalKb)[|ordered|..];
    assert Expand(partitions, flashTotalKb) == ordered + rest;
    RealsAppend(ordered, rest);
    assert rest != [] ==> rest[1..] == [];
  }

  /** Expanding the result once more gives the same list. */
  lemma ExpandTwice(partitions: seq<Part>, flashTotalKb: Option<real>)
    ensures Expand(Expand(partitions, flashTotalKb), flashTotalKb) == Expand(partitions, flashTotalKb)
  {
    if AllPlaced(Reals(partitions)) {
      if Reals(partitions) == [] {
        assert Expand(partitions, flashTotalKb) == [];
      } else {
        PlacedTwice(partitions, flashTotalKb);
      }
    } else {
      UnplacedTwice(partitions, flashTotalKb);
    }
  }

  lemma UnplacedStays(ps: seq<Part>)
    requires !AllPlaced(ps)
    ensures !AllPlaced(Sorted(ps, false)) && Sorted(Sorted(ps, false), false) == Sorted(ps, false)
  {
    SortedKeeps(ps, false);
    SortedOfAscending(Sorted(ps, false), false);
    var i :| 0 <= i < |ps| && ps[i].offset.None?;
    assert ps[i] in multiset(Sorted(ps, false));
  }

  lemma UnplacedTwice(partitions: seq<Part>, flashTotalKb: Option<real>)
    requires !AllPlaced(Reals(partitions))
    ensures Expand(Expand(partitions, flashTotalKb), flashTotalKb) == Expand(partitions, flashTotalKb)
  {
    hide AllPlaced, Reals, Sorted, UsedKb, Sweep, Numbered;
    UnplacedReals(partitions, flashTotalKb);
    UnplacedStays(Reals(partitions));
  }

  lemma PlacedTwice(partitions: seq<Part>, flashTotalKb: Option<real>)
    requires Reals(partitions) != [] && AllPlaced(Reals(partitions))
    ensures Expand(Expand(partitions, flashTotalKb), flashTotalKb) == Expand(partitions, flashTotalKb)
  {
    var ordered, again := Sorted(Reals(partitions), true), Reals(Expand(partitions, flashTotalKb));
    PlacedStaysPlaced(Reals(partitions));
    RealsSurvive(partitions, flashTotalKb);
    forall i | 0 <= i < |again| ensures again[i].offset.Some? && Key(again[i], true) == Key(ordered[i], true) {
      assert again[i].(order := 0) == ordered[i].(order := 0);
    }
    SortedOfAscending(again, true);
    SweepButOrder(again, ordered, 0, FlashEnd(flashTotalKb));
    NumberedButOrder(Sweep(again, 0, FlashEnd(flashTotalKb)), Sweep(ordered, 0, FlashEnd(flashTotalKb)));
  }

  /** That entry is the last one, and numbered so; the partitions before it are in their order. */
  lemma UnplacedEntries(partitions: seq<Part>, flashTotalKb: Option<real>)
    requires !AllPlaced(Reals(partitions))
    ensures |Reals(partitions)| <= |Expand(partitions, flashTotalKb)| <= |Reals(partitions)| + 1
    ensures Expand(partitions, flashTotalKb)[..|Reals(partitions)|] == Sorted(Reals(partitions), false)
    ensures forall i :: 0 < i < |Reals(partitions)| ==>
              Expand(partitions, flashTotalKb)[i - 1].order <= Expand(partitions, flashTotalKb)[i].order
    ensures |Expand(partitions, flashTotalKb)| > |Reals(partitions)| ==>
              var p := Expand(partitions, flashTotalKb)[|Reals(partitions)|];
              IsPadding(p) && p.order == |Reals(partitions)| && p.offset == None && p.sizeKb > 0.0
  {
    var ordered := Sorted(Reals(partitions), false);
    SortedKeeps(Reals(partitions), false);
    hide Sorted, Reals, AllPlaced;
    assert forall i :: 0 < i < |ordered| ==> Key(ordered[i - 1], false) <= Key(ordered[i], false);
  }

  /** Without offsets, one padding entry brings the sizes up to the flash total, if they fall short of it. */
  lemma UnplacedSizesAddUp(partitions: seq<Part>, flashTotalKb: Option<real>)
    requires !AllPlaced(Reals(partitions))
    ensures UsedKb(Expand(partitions, flashTotalKb))
         == if flashTotalKb.Some? && flashTotalKb.value > UsedKb(Sorted(Reals(partitions), false))
            then flashTotalKb.value
            else UsedKb(Sorted(Reals(partitions), false))
  {
    var ordered := Sorted(Reals(partitions), false);
    var e := Expand(partitions, flashTotalKb);
    assert e != ordered ==> e[..|e| - 1] == ordered;
  }
}
