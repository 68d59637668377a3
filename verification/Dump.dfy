/** The memory dumps of dump.c. */
module Dump {

  import opened Ez8

  /** What is printed: a line of up to sixteen bytes from column `seek` on, or a summary of a run. */
  datatype Piece =
    | Line(row: nat, seek: nat, bytes: seq<Byte>)
    | Summary(first: nat, last: int, byte: Byte, count: int)

  function Size(p: Piece): int {
    if p.Line? then |p.bytes| else p.count
  }

  /** The pieces tile the bytes from `addr` on: in order, without gap or overlap, a line showing
      its bytes and a summary covering equal bytes and naming its first and last address. */
  predicate Tiles(pieces: seq<Piece>, addr: nat, data: seq<Byte>)
    decreases |pieces|
  {
    if pieces == [] then data == []
    else
      var n := Size(pieces[0]);
      Covers(pieces[0], addr, data) && Tiles(pieces[1..], addr + n, data[n..])
  }

  /** A piece and the bytes it stands for. */
  predicate Covers(p: Piece, addr: nat, data: seq<Byte>) {
    var n := Size(p);
    && 0 < n <= |data|
    && match p
       case Line(_, seek, bytes) => seek + n <= 16 && bytes == data[..n]
       case Summary(first, last, byte, _) =>
         first == addr && last == addr + n - 1 && forall k :: 0 <= k < n ==> data[k] == byte
  }

  /** The column labels of a line name the addresses of its bytes, modulo 64K. */
  predicate Labelled(pieces: seq<Piece>, addr: int)
    decreases |pieces|
  {
    pieces != [] ==>
      var p := pieces[0];
      && (p.Line? ==> (p.row + p.seek) % 0x10000 == addr % 0x10000)
      && Labelled(pieces[1..], addr + Size(p))
  }

  // ----- The two dumps -----

  /** memcspn(data, data[0], size) */
  function Run(data: seq<Byte>): (n: nat)
    requires data != []
    ensures 0 < n <= |data| && (forall k :: 0 <= k < n ==> data[k] == data[0])
    ensures n < |data| ==> data[n] != data[0]
  {
    if |data| == 1 || data[1] != data[0] then 1 else
      var n := Run(data[1..]);
      assert forall k :: 0 < k < |data| ==> data[k] == data[1..][k - 1];
      1 + n
  }

  function LineSize(seek: nat, size: nat): int {
    if seek + size > 16 then 16 - seek else size
  }

  function LineOf(addr: nat, seek: nat, bytes: seq<Byte>): Piece {
    Line(addr / 16 * 16 % 0x10000, seek, bytes)
  }

  /** A run that is not the end is cut back to end before a sixteen-byte boundary, as `seek` tells. */
  function RepeatSize(run: nat, seek: nat, size: nat): int {
    if run >= size then run
    else if seek != 0 then (run - 16 + seek) / 16 * 16 + 16 - seek
    else run / 16 * 16
  }

  predicate Repeats(data: seq<Byte>, minrepeat: nat) {
    data != [] && minrepeat != 0 && Run(data) >= minrepeat
  }

  lemma RepeatProgress(run: nat, seek: nat, size: nat)
    requires seek < 16 && 0 < run <= size
    ensures RepeatSize(run, seek, size) <= run
    ensures RepeatSize(run, seek, size) <= 0 <==> run < size && run + seek < 16
    ensures RepeatSize(run, seek, size) <= 0 ==> RepeatSize(run, seek, size) + seek == 0
  {}

  /** Every round of the loop moves forward. */
  predicate Advances(data: seq<Byte>, seek: nat, minrepeat: nat)
    requires seek < 16
    decreases |data|
  {
    data != [] ==>
      if Repeats(data, minrepeat) then
        (RepeatProgress(Run(data), seek, |data|);
         var n := RepeatSize(Run(data), seek, |data|);
         n > 0 && Advances(data[n..], seek, minrepeat))
      else Advances(data[LineSize(seek, |data|)..], 0, minrepeat)
  }

  /** It always does when only runs of sixteen or more are summarised, or none. */
  lemma {:induction false} LongRunsAdvance(data: seq<Byte>, seek: nat, minrepeat: nat)
    requires seek < 16 && (minrepeat == 0 || minrepeat >= 16)
    ensures Advances(data, seek, minrepeat)
    decreases |data|
  {
    hide Run, RepeatSize;
    if data != [] {
      if Repeats(data, minrepeat) {
        RepeatProgress(Run(data), seek, |data|);
        LongRunsAdvance(data[RepeatSize(Run(data), seek, |data|)..], seek, minrepeat);
      } else {
        LongRunsAdvance(data[LineSize(seek, |data|)..], 0, minrepeat);
      }
    }
  }

  /** Where the loop is: at a byte of its block with a column, or before the block. */
  datatype Spot = Spot(pos: nat, seek: nat) | Before

  /** One round of the loop; a summary moves by its count, forward or not. */
  function Move(bytes: seq<Byte>, minrepeat: nat, s: Spot): (t: Spot)
    requires Inside(bytes, s)
    ensures Inside(bytes, t)
  {
    if s.Before? || s.pos == |bytes| then s else
      var data := bytes[s.pos..];
      if Repeats(data, minrepeat) then
        RepeatProgress(Run(data), s.seek, |data|);
        var next := s.pos + RepeatSize(Run(data), s.seek, |data|);
        if next < 0 then Before else Spot(next, s.seek)
      else Spot(s.pos + LineSize(s.seek, |data|), 0)
  }

  predicate Inside(bytes: seq<Byte>, s: Spot) {
    s.Spot? ==> s.pos <= |bytes| && s.seek < 16
  }

  function Moves(bytes: seq<Byte>, minrepeat: nat, s: Spot, k: nat): (t: Spot)
    requires Inside(bytes, s)
    ensures Inside(bytes, t)
    decreases k
  {
    if k == 0 then s else Moves(bytes, minrepeat, Move(bytes, minrepeat, s), k - 1)
  }

  /** The whole block has been dumped. */
  predicate Ended(bytes: seq<Byte>, s: Spot) {
    s.Spot? && s.pos == |bytes|
  }

  /** If every round moves forward the dump ends, inside its block. */
  lemma {:induction false} AdvancingEnds(bytes: seq<Byte>, minrepeat: nat, s: Spot) returns (k: nat)
    requires s.Spot? && Inside(bytes, s) && Advances(bytes[s.pos..], s.seek, minrepeat)
    ensures Ended(bytes, Moves(bytes, minrepeat, s, k))
    decreases |bytes| - s.pos
  {
    hide Run, RepeatSize;
    k := 0;
    if s.pos < |bytes| {
      var data, t := bytes[s.pos..], Move(bytes, minrepeat, s);
      RepeatProgress(Run(data), s.seek, |data|);
      assert bytes[t.pos..] == data[t.pos - s.pos..];
      k := AdvancingEnds(bytes, minrepeat, t);
      k := k + 1;
    }
  }

  /** From a sixteen-byte boundary it ends only then. */
  lemma {:induction false} StuckForever(bytes: seq<Byte>, at: nat, minrepeat: nat, k: nat)
    requires at <= |bytes| && !Advances(bytes[at..], 0, minrepeat)
    ensures !Ended(bytes, Moves(bytes, minrepeat, Spot(at, 0), k))
    decreases k
  {
    hide Run, RepeatSize;
    if k > 0 {
      var data, t := bytes[at..], Move(bytes, minrepeat, Spot(at, 0));
      RepeatProgress(Run(data), 0, |data|);
      assert bytes[t.pos..] == data[t.pos - at..];
      StuckForever(bytes, t.pos, minrepeat, k - 1);
    }
  }

  lemma {:induction false} MovesMore(bytes: seq<Byte>, minrepeat: nat, s: Spot, j: nat, k: nat)
    requires Inside(bytes, s)
    ensures Moves(bytes, minrepeat, Moves(bytes, minrepeat, s, j), k) == Moves(bytes, minrepeat, s, j + k)
    decreases j
  {
    hide Move;
    if j > 0 {
      MovesMore(bytes, minrepeat, Move(bytes, minrepeat, s), j - 1, k);
    }
  }

  /** The spots of the first `k` rounds. */
  function Visited(bytes: seq<Byte>, minrepeat: nat, s: Spot, k: nat): (visited: set<Spot>)
    requires Inside(bytes, s)
  {
    set j | 0 <= j < k :: Moves(bytes, minrepeat, s, j)
  }

  /** All spots there are: two columns (the first and 0) at each byte, the end, and before. */
  function Spots(n: nat, seek: nat): (spots: set<Spot>)
    ensures |spots| <= 2 * n + 3
    ensures Before in spots && forall p: nat :: p <= n ==> Spot(p, seek) in spots && Spot(p, 0) in spots
  {
    if n == 0 then {Before, Spot(0, seek), Spot(0, 0)}
    else Spots(n - 1, seek) + {Spot(n, seek), Spot(n, 0)}
  }

  lemma {:induction false} MovesInSpots(bytes: seq<Byte>, minrepeat: nat, s: Spot, k: nat)
    requires s.Spot? && Inside(bytes, s)
    ensures Moves(bytes, minrepeat, s, k) in Spots(|bytes|, s.seek)
    decreases k
  {
    hide Run, RepeatSize, LineSize, Spots;
    var t := Move(bytes, minrepeat, s);
    if k == 0 {
    } else if t.Before? {
      BeforeStays(bytes, minrepeat, k - 1);
    } else {
      MovesInSpots(bytes, minrepeat, t, k - 1);
      if t.seek != s.seek {
        SpotsOfZero(|bytes|, s.seek);
      }
    }
  }

  lemma {:induction false} BeforeStays(bytes: seq<Byte>, minrepeat: nat, k: nat)
    ensures Moves(bytes, minrepeat, Before, k) == Before
    decreases k
  {
    if k > 0 {
      BeforeStays(bytes, minrepeat, k - 1);
    }
  }

  lemma {:induction false} SpotsOfZero(n: nat, seek: nat)
    ensures Spots(n, 0) <= Spots(n, seek)
    decreases n
  {
    if n > 0 {
      SpotsOfZero(n - 1, seek);
    }
  }

  lemma {:induction false} EndedStays(bytes: seq<Byte>, minrepeat: nat, s: Spot, k: nat)
    requires Inside(bytes, s) && Ended(bytes, s)
    ensures Moves(bytes, minrepeat, s, k) == s
    decreases k
  {
    if k > 0 {
      EndedStays(bytes, minrepeat, s, k - 1);
    }
  }

  lemma {:induction false} SubsetSize<T>(a: set<T>, b: set<T>)
    requires a <= b
    ensures |a| <= |b|
    decreases a
  {
    if x :| x in a {
      SubsetSize(a - {x}, b - {x});
    }
  }

  lemma VisitedMore(bytes: seq<Byte>, minrepeat: nat, s: Spot, k: nat)
    requires s.Spot? && Inside(bytes, s)
    ensures Visited(bytes, minrepeat, s, 0) == {}
    ensures Visited(bytes, minrepeat, s, k + 1) ==
            Visited(bytes, minrepeat, s, k) + {Moves(bytes, minrepeat, s, k)}
  {
    hide Moves, Move;
  }

  lemma VisitedInSpots(bytes: seq<Byte>, minrepeat: nat, s: Spot, k: nat)
    requires s.Spot? && Inside(bytes, s)
    ensures Visited(bytes, minrepeat, s, k) <= Spots(|bytes|, s.seek)
  {
    hide Moves, Move, Spots;
    forall t | t in Visited(bytes, minrepeat, s, k)
      ensures t in Spots(|bytes|, s.seek)
    {
      var j :| 0 <= j < k && Moves(bytes, minrepeat, s, j) == t;
      MovesInSpots(bytes, minrepeat, s, j);
    }
  }

  lemma {:induction false} VisitedSize(bytes: seq<Byte>, minrepeat: nat, s: Spot, k: nat)
    requires s.Spot? && Inside(bytes, s)
    requires forall i, j :: 0 <= i < j < k ==> Moves(bytes, minrepeat, s, i) != Moves(bytes, minrepeat, s, j)
    ensures |Visited(bytes, minrepeat, s, k)| == k
    decreases k
  {
    hide Moves, Move;
    if k == 0 {
      VisitedMore(bytes, minrepeat, s, 0);
    } else {
      VisitedSize(bytes, minrepeat, s, k - 1);
      VisitedMore(bytes, minrepeat, s, k - 1);
    }
  }

  /** Rounds that never meet a spot twice are no more than there are spots. */
  lemma FewSpots(bytes: seq<Byte>, minrepeat: nat, s: Spot, k: nat)
    requires s.Spot? && Inside(bytes, s)
    requires forall i, j :: 0 <= i < j < k ==> Moves(bytes, minrepeat, s, i) != Moves(bytes, minrepeat, s, j)
    ensures k <= 2 * |bytes| + 3
  {
    hide Moves, Move, Spots, Visited;
    VisitedSize(bytes, minrepeat, s, k);
    VisitedInSpots(bytes, minrepeat, s, k);
    SubsetSize(Visited(bytes, minrepeat, s, k), Spots(|bytes|, s.seek));
  }

  lemma {:induction false} Shortcut(bytes: seq<Byte>, minrepeat: nat, s: Spot, k: nat)
    requires s.Spot? && Inside(bytes, s) && Ended(bytes, Moves(bytes, minrepeat, s, k))
    ensures Ended(bytes, Moves(bytes, minrepeat, s, 2 * |bytes| + 3))
    decreases k
  {
    hide Moves;
    var n := 2 * |bytes| + 3;
    if k <= n {
      MovesMore(bytes, minrepeat, s, k, n - k);
      EndedStays(bytes, minrepeat, Moves(bytes, minrepeat, s, k), n - k);
    } else if i, j :| 0 <= i < j < k && Moves(bytes, minrepeat, s, i) == Moves(bytes, minrepeat, s, j) {
      MovesMore(bytes, minrepeat, s, i, k - j);
      MovesMore(bytes, minrepeat, s, j, k - j);
      Shortcut(bytes, minrepeat, s, i + (k - j));
    } else {
      FewSpots(bytes, minrepeat, s, k);
      assert false;
    }
  }

  /** From any column: the dump ends inside its block if and only if it does so within two rounds
      for every byte and three more, since otherwise it comes back to where it was. */
  lemma EndsExactly(bytes: seq<Byte>, minrepeat: nat, seek: nat)
    requires seek < 16
    ensures (exists k: nat :: Ended(bytes, Moves(bytes, minrepeat, Spot(0, seek), k))) <==>
      Ended(bytes, Moves(bytes, minrepeat, Spot(0, seek), 2 * |bytes| + 3))
  {
    hide Moves;
    if k: nat :| Ended(bytes, Moves(bytes, minrepeat, Spot(0, seek), k)) {
      Shortcut(bytes, minrepeat, Spot(0, seek), k);
    }
  }

  /** Moving back need not keep a dump from ending: 28 equal bytes and another, from column 6,
      take seven rounds, of which three move back. */
  function Retreating(): (bytes: seq<Byte>)
    ensures |bytes| == 29 && bytes[28] == 0x01 && forall p :: 0 <= p < 28 ==> bytes[p] == 0x00
  {
    seq(28, _ => 0x00) + [0x01]
  }

  lemma RetreatEnds()
    ensures !Advances(Retreating(), 6, 2) && Ended(Retreating(), Moves(Retreating(), 2, Spot(0, 6), 7))
  {
    hide Move, Moves, Retreating, RepeatSize, Advances;
    var bytes := Retreating();
    RetreatSizes();
    var path := [Spot(0, 6), Spot(26, 6), Spot(20, 6), Spot(14, 6), Spot(24, 6), Spot(18, 6), Spot(28, 6), Spot(29, 0)];
    RetreatMove(0);
    RetreatMove(26);
    RetreatMove(20);
    RetreatMove(14);
    RetreatMove(24);
    RetreatMove(18);
    RetreatLast();
    FollowPath(bytes, 2, path, 0);
    RetreatStops();
  }

  lemma RetreatSizes()
    ensures RepeatSize(28, 6, 29) == 26 && RepeatSize(2, 6, 3) == -6 && RepeatSize(8, 6, 9) == -6
    ensures RepeatSize(14, 6, 15) == 10 && RepeatSize(4, 6, 5) == -6 && RepeatSize(10, 6, 11) == 10
  {}

  lemma RetreatMove(p: nat)
    requires p <= 26 && p + RepeatSize(28 - p, 6, 29 - p) >= 0
    ensures Move(Retreating(), 2, Spot(p, 6)) == Spot(p + RepeatSize(28 - p, 6, 29 - p), 6)
  {
    hide RepeatSize, Retreating;
    RunIs(Retreating()[p..], 28 - p);
  }

  lemma RetreatLast()
    ensures Move(Retreating(), 2, Spot(28, 6)) == Spot(29, 0)
  {
    hide Retreating;
    RunIs(Retreating()[28..], 1);
  }

  lemma RetreatStops()
    ensures !Advances(Retreating(), 6, 2)
  {
    hide Retreating, Run;
    var bytes := Retreating();
    RunIs(bytes, 28);
    RunIs(bytes[26..], 2);
    assert !Advances(bytes[26..], 6, 2);
  }

  lemma {:induction false} FollowPath(bytes: seq<Byte>, minrepeat: nat, path: seq<Spot>, i: nat)
    requires i < |path| && (forall j :: 0 <= j < |path| ==> Inside(bytes, path[j]))
    requires forall j :: 0 <= j < |path| - 1 ==> Move(bytes, minrepeat, path[j]) == path[j + 1]
    ensures Moves(bytes, minrepeat, path[i], |path| - 1 - i) == path[|path| - 1]
    decreases |path| - i
  {
    hide Move;
    if i < |path| - 1 {
      FollowPath(bytes, minrepeat, path, i + 1);
    }
  }

  function Pieces(addr: nat, data: seq<Byte>, seek: nat, minrepeat: nat): seq<Piece>
    requires seek < 16 && Advances(data, seek, minrepeat)
    decreases |data|
  {
    if data == [] then []
    else if Repeats(data, minrepeat) then
      RepeatProgress(Run(data), seek, |data|);
      var n := RepeatSize(Run(data), seek, |data|);
      [Summary(addr, addr + n - 1, data[0], n)] + Pieces(addr + n, data[n..], seek, minrepeat)
    else
      var n := LineSize(seek, |data|);
      [LineOf(addr, seek, data[..n])] + Pieces(addr + n, data[n..], 0, minrepeat)
  }

  lemma {:induction false} PiecesTile(addr: nat, data: seq<Byte>, seek: nat, minrepeat: nat)
    requires seek < 16 && Advances(data, seek, minrepeat)
    ensures Tiles(Pieces(addr, data, seek, minrepeat), addr, data)
    decreases |data|
  {
    hide Run, RepeatSize, LineSize, LineOf, Covers;
    if data != [] {
      PieceCovers(addr, data, seek);
      if Repeats(data, minrepeat) {
        RepeatProgress(Run(data), seek, |data|);
        var n := RepeatSize(Run(data), seek, |data|);
        PiecesTile(addr + n, data[n..], seek, minrepeat);
      } else {
        var n := LineSize(seek, |data|);
        PiecesTile(addr + n, data[n..], 0, minrepeat);
      }
    }
  }

  /** `pieces` is what the loop prints up to its first round that does not move forward, that
      round's summary, and anything behind it. */
  predicate Printed(addr: nat, data: seq<Byte>, seek: nat, minrepeat: nat, pieces: seq<Piece>)
    requires seek < 16
    decreases |data|
  {
    if data == [] then pieces == []
    else if Repeats(data, minrepeat) then
      RepeatProgress(Run(data), seek, |data|);
      var n := RepeatSize(Run(data), seek, |data|);
      && pieces != [] && pieces[0] == Summary(addr, addr + n - 1, data[0], n)
      && (n > 0 ==> Printed(addr + n, data[n..], seek, minrepeat, pieces[1..]))
    else
      var n := LineSize(seek, |data|);
      && pieces != [] && pieces[0] == LineOf(addr, seek, data[..n])
      && Printed(addr + n, data[n..], 0, minrepeat, pieces[1..])
  }

  /** What is printed tiles the block if and only if every round moves forward. */
  lemma {:induction false} TilesExactly(addr: nat, data: seq<Byte>, seek: nat, minrepeat: nat, pieces: seq<Piece>)
    requires seek < 16 && Printed(addr, data, seek, minrepeat, pieces)
    ensures Tiles(pieces, addr, data) <==> Advances(data, seek, minrepeat)
    decreases |data|
  {
    hide Run, RepeatSize, LineSize, LineOf, Covers;
    if data != [] {
      PieceCovers(addr, data, seek);
      if Repeats(data, minrepeat) {
        RepeatProgress(Run(data), seek, |data|);
        var n := RepeatSize(Run(data), seek, |data|);
        if n > 0 {
          TilesExactly(addr + n, data[n..], seek, minrepeat, pieces[1..]);
        } else {
          CoversSome(pieces[0], addr, data);
        }
      } else {
        var n := LineSize(seek, |data|);
        TilesExactly(addr + n, data[n..], 0, minrepeat, pieces[1..]);
      }
    }
  }

  lemma CoversSome(p: Piece, addr: nat, data: seq<Byte>)
    ensures Covers(p, addr, data) ==> Size(p) > 0
  {}

  lemma PieceCovers(addr: nat, data: seq<Byte>, seek: nat)
    requires seek < 16 && data != []
    ensures var n := LineSize(seek, |data|);
      0 < n <= |data| && Covers(LineOf(addr, seek, data[..n]), addr, data) && Size(LineOf(addr, seek, data[..n])) == n
    ensures var n := RepeatSize(Run(data), seek, |data|);
      0 < n <= Run(data) ==> Covers(Summary(addr, addr + n - 1, data[0], n), addr, data)
  {
    hide Run, RepeatSize;
  }

  /** Where the column kept agrees with the address at every step of the loop. */
  predicate ColumnsKept(addr: nat, data: seq<Byte>, seek: nat, minrepeat: nat)
    requires seek < 16 && Advances(data, seek, minrepeat)
    decreases |data|
  {
    data != [] ==>
      && seek == addr % 16
      && if Repeats(data, minrepeat) then
           (RepeatProgress(Run(data), seek, |data|);
            var n := RepeatSize(Run(data), seek, |data|);
            ColumnsKept(addr + n, data[n..], seek, minrepeat))
         else
           var n := LineSize(seek, |data|);
           ColumnsKept(addr + n, data[n..], 0, minrepeat)
  }

  lemma PiecesAlign(addr: nat, run: nat, size: nat)
    requires addr % 16 == 0 && run <= size
    ensures RepeatSize(run, 0, size) < size ==> (addr + RepeatSize(run, 0, size)) % 16 == 0
    ensures LineSize(0, size) < size ==> (addr + LineSize(0, size)) % 16 == 0
    ensures 0 <= LineSize(0, size) <= size && (size > 0 ==> LineSize(0, size) > 0)
  {}

  /** From a sixteen-byte boundary on the column is kept. */
  lemma {:induction false} AlignedColumns(addr: nat, data: seq<Byte>, minrepeat: nat)
    requires addr % 16 == 0 && Advances(data, 0, minrepeat)
    ensures ColumnsKept(addr, data, 0, minrepeat)
    decreases |data|
  {
    hide Run, RepeatSize, LineSize;
    if data != [] {
      if Repeats(data, minrepeat) {
        RepeatProgress(Run(data), 0, |data|);
        var n := RepeatSize(Run(data), 0, |data|);
        PiecesAlign(addr, Run(data), |data|);
        if n < |data| {
          AlignedColumns(addr + n, data[n..], minrepeat);
        }
      } else {
        var n := LineSize(0, |data|);
        PiecesAlign(addr, |data|, |data|);
        if n < |data| {
          AlignedColumns(addr + n, data[n..], minrepeat);
        }
      }
    }
  }

  /** The column is lost exactly when an unaligned dump starts with a summary that is not all of it. */
  lemma ColumnsKeptExactly(addr: nat, data: seq<Byte>, minrepeat: nat)
    requires Advances(data, addr % 16, minrepeat)
    ensures ColumnsKept(addr, data, addr % 16, minrepeat) <==>
      (addr % 16 == 0 || !Repeats(data, minrepeat) || Run(data) == |data|)
  {
    hide Run;
    var seek := addr % 16;
    if seek == 0 {
      AlignedColumns(addr, data, minrepeat);
    } else if data != [] {
      if Repeats(data, minrepeat) {
        RepeatProgress(Run(data), seek, |data|);
        SummaryAligns(addr, Run(data), |data|);
      } else {
        var n := LineSize(seek, |data|);
        if n < |data| {
          AlignedColumns(addr + n, data[n..], minrepeat);
        }
      }
    }
  }

  /** After such a summary the address is at a boundary, and the column is not. */
  lemma SummaryAligns(addr: nat, run: nat, size: nat)
    requires addr % 16 != 0
    ensures run < size ==> (addr + RepeatSize(run, addr % 16, size)) % 16 == 0
  {}

  /** Kept columns make right labels. */
  lemma {:induction false} ColumnsLabel(addr: nat, data: seq<Byte>, seek: nat, minrepeat: nat)
    requires seek < 16 && Advances(data, seek, minrepeat) && ColumnsKept(addr, data, seek, minrepeat)
    ensures Labelled(Pieces(addr, data, seek, minrepeat), addr)
    decreases |data|
  {
    hide Run, RepeatSize, LineSize, LineOf, Covers;
    if data != [] {
      PieceCovers(addr, data, seek);
      LabelRight(addr, data[..LineSize(seek, |data|)]);
      if Repeats(data, minrepeat) {
        RepeatProgress(Run(data), seek, |data|);
        var n := RepeatSize(Run(data), seek, |data|);
        ColumnsLabel(addr + n, data[n..], seek, minrepeat);
      } else {
        var n := LineSize(seek, |data|);
        ColumnsLabel(addr + n, data[n..], 0, minrepeat);
      }
    }
  }

  lemma LabelRight(addr: nat, bytes: seq<Byte>)
    ensures var p := LineOf(addr, addr % 16, bytes);
      p.Line? && (p.row + p.seek) % 0x10000 == addr % 0x10000
  {}

  /** The summaries a dump opens with, and what follows them. */
  function Opening(data: seq<Byte>, seek: nat, minrepeat: nat): (o: (nat, seq<Byte>))
    requires seek < 16 && Advances(data, seek, minrepeat)
    ensures |o.1| <= |data|
    decreases |data|
  {
    if Repeats(data, minrepeat) then
      RepeatProgress(Run(data), seek, |data|);
      var (k, rest) := Opening(data[RepeatSize(Run(data), seek, |data|)..], seek, minrepeat);
      (k + 1, rest)
    else (0, data)
  }

  /** The first line decides: its labels are right if the column agrees with the address there,
      and then so are all others. */
  lemma {:induction false} FirstLineDecides(addr: nat, data: seq<Byte>, seek: nat, minrepeat: nat)
    requires seek < 16 && Advances(data, seek, minrepeat)
    ensures var rest := Opening(data, seek, minrepeat).1;
      Labelled(Pieces(addr, data, seek, minrepeat), addr) <==>
      rest == [] || (addr + |data| - |rest|) % 16 == seek
    decreases |data|
  {
    hide Advances, Run, RepeatSize, LineSize, LineOf, Repeats, Labelled, Pieces;
    if data == [] {
      NoPieces(addr, seek, minrepeat);
      NothingRepeats(minrepeat);
      assert Labelled([], addr) by { NoLabels(addr); }
    } else if Repeats(data, minrepeat) {
      var n := RepeatSize(Run(data), seek, |data|);
      SummaryAdvances(data, seek, minrepeat);
      OpensWithSummary(addr, data, seek, minrepeat);
      FirstLineDecides(addr + n, data[n..], seek, minrepeat);
      LabelledOneMore(Summary(addr, addr + n - 1, data[0], n), Pieces(addr + n, data[n..], seek, minrepeat), addr);
    } else {
      LineDecides(addr, data, seek, minrepeat);
    }
  }

  lemma NothingRepeats(minrepeat: nat)
    ensures !Repeats([], minrepeat)
  {}

  lemma NoLabels(addr: int)
    ensures Labelled([], addr)
  {}

  lemma LabelledOneMore(p: Piece, rest: seq<Piece>, addr: int)
    ensures Labelled([p] + rest, addr) <==>
      (p.Line? ==> (p.row + p.seek) % 0x10000 == addr % 0x10000) && Labelled(rest, addr + Size(p))
  {
    assert ([p] + rest)[1..] == rest;
  }

  /** A dump that starts with a line. */
  lemma LineDecides(addr: nat, data: seq<Byte>, seek: nat, minrepeat: nat)
    requires seek < 16 && Advances(data, seek, minrepeat) && data != [] && !Repeats(data, minrepeat)
    ensures Labelled(Pieces(addr, data, seek, minrepeat), addr) <==> addr % 16 == seek
  {
    hide Advances, Run, RepeatSize, LineSize, LineOf, Repeats, Labelled, Pieces;
    var n := LineSize(seek, |data|);
    LineAdvances(data, seek, minrepeat);
    OpensWithLine(addr, data, seek, minrepeat);
    PieceCovers(addr, data, seek);
    LineLabel(addr, seek, data[..n]);
    LineAligns(addr, seek, |data|);
    LabelledOneMore(LineOf(addr, seek, data[..n]), Pieces(addr + n, data[n..], 0, minrepeat), addr);
    if addr % 16 == seek {
      if n < |data| {
        AlignedColumns(addr + n, data[n..], minrepeat);
        ColumnsLabel(addr + n, data[n..], 0, minrepeat);
      } else {
        assert data[n..] == [];
        NoPieces(addr + n, 0, minrepeat);
        NoLabels(addr + n);
      }
    }
  }

  lemma LineLabel(addr: nat, seek: nat, bytes: seq<Byte>)
    requires seek < 16
    ensures var p := LineOf(addr, seek, bytes);
      p.Line? && ((p.row + p.seek) % 0x10000 == addr % 0x10000 <==> addr % 16 == seek)
  {
    assert addr % 0x10000 == addr / 16 * 16 % 0x10000 + addr % 16;
  }

  lemma LineAligns(addr: nat, seek: nat, size: nat)
    requires seek < 16
    ensures addr % 16 == seek && LineSize(seek, size) < size ==> (addr + LineSize(seek, size)) % 16 == 0
  {}

  /** Each opening summary that is not the end stops short of a boundary by the column. */
  lemma {:induction false} OpeningAddress(data: seq<Byte>, seek: nat, minrepeat: nat)
    requires seek < 16 && Advances(data, seek, minrepeat)
    ensures var (k, rest) := Opening(data, seek, minrepeat);
      rest != [] ==> (|data| - |rest| + k * seek) % 16 == 0
    decreases |data|
  {
    hide Run, RepeatSize, Advances, LineSize;
    if Repeats(data, minrepeat) {
      var n := RepeatSize(Run(data), seek, |data|);
      SummaryAdvances(data, seek, minrepeat);
      OpeningAddress(data[n..], seek, minrepeat);
      var (k, rest) := Opening(data[n..], seek, minrepeat);
      SummaryRemainder(Run(data), seek, |data|);
      if rest != [] {
        SumsToSixteen(n + seek, |data| - n - |rest| + k * seek);
        assert |data| - |rest| + (k + 1) * seek == (n + seek) + (|data| - n - |rest| + k * seek);
      }
    }
  }

  lemma SummaryRemainder(run: nat, seek: nat, size: nat)
    requires seek < 16
    ensures run < size ==> (RepeatSize(run, seek, size) + seek) % 16 == 0
    ensures run == size ==> RepeatSize(run, seek, size) == size
  {}

  lemma SumsToSixteen(a: int, b: int)
    ensures a % 16 == 0 && b % 16 == 0 ==> (a + b) % 16 == 0
  {}

  /** The labels are right if and only if the opening summaries are the whole dump, or their
      number times the starting column is a multiple of sixteen. */
  lemma LabelledExactly(addr: nat, data: seq<Byte>, minrepeat: nat)
    requires Advances(data, addr % 16, minrepeat)
    ensures var (k, rest) := Opening(data, addr % 16, minrepeat);
      Labelled(Pieces(addr, data, addr % 16, minrepeat), addr) <==> rest == [] || k * (addr % 16) % 16 == 0
  {
    hide Opening, Labelled, Pieces, Advances;
    var seek := addr % 16;
    var (k, rest) := Opening(data, seek, minrepeat);
    FirstLineDecides(addr, data, seek, minrepeat);
    OpeningAddress(data, seek, minrepeat);
    if rest != [] {
      Agrees(addr, |data| - |rest|, k * seek);
    }
  }

  lemma Agrees(addr: nat, shown: nat, back: nat)
    requires (shown + back) % 16 == 0
    ensures (addr + shown) % 16 == addr % 16 <==> back % 16 == 0
  {}

  method DumpData(start: nat, bytes: seq<Byte>) returns (pieces: seq<Piece>)
    ensures Tiles(pieces, start, bytes) && Labelled(pieces, start)
  {
    hide Advances, Pieces, Tiles, Labelled, LineOf, Opening;
    pieces := [];
    var addr: nat, seek: nat, data := start, start % 16, bytes;
    LongRunsAdvance(bytes, start % 16, 0);
    while |data| > 0
      invariant seek < 16 && Advances(data, seek, 0)
      invariant pieces + Pieces(addr, data, seek, 0) == Pieces(start, bytes, start % 16, 0)
      decreases |data|
    {
      OpensWithLine(addr, data, seek, 0);
      var length := if seek + |data| > 16 then 16 - seek else |data|;
      var line := LineOf(addr, seek, data[..length]);
      NextPiece(pieces, line, Pieces(addr + length, data[length..], 0, 0));
      pieces := pieces + [line];
      addr := addr + length;
      data := data[length..];
      seek := 0;
    }
    NoPieces(addr, seek, 0);
    assert pieces + [] == pieces;
    PiecesTile(start, bytes, start % 16, 0);
    LabelledExactly(start, bytes, 0);
    NoOpening(bytes, start % 16);
  }

  lemma NoOpening(data: seq<Byte>, seek: nat)
    requires seek < 16 && Advances(data, seek, 0)
    ensures Opening(data, seek, 0) == (0, data)
  {}

  method Memcspn(data: seq<Byte>, c: Byte) returns (n: nat)
    requires data != [] && c == data[0]
    ensures n == Run(data)
  {
    n := 0;
    while n < |data| && data[n] == c
      invariant n <= |data| && forall k :: 0 <= k < n ==> data[k] == c
    {
      n := n + 1;
    }
  }

  lemma SummaryAdvances(data: seq<Byte>, seek: nat, minrepeat: nat)
    requires seek < 16 && Advances(data, seek, minrepeat) && Repeats(data, minrepeat)
    ensures var n := RepeatSize(Run(data), seek, |data|);
      0 < n <= |data| && Advances(data[n..], seek, minrepeat)
  {
    hide Run, RepeatSize, LineSize;
    RepeatProgress(Run(data), seek, |data|);
  }

  lemma OpensWithSummary(addr: nat, data: seq<Byte>, seek: nat, minrepeat: nat)
    requires seek < 16 && Advances(data, seek, minrepeat) && Repeats(data, minrepeat)
    ensures var n := RepeatSize(Run(data), seek, |data|);
      && 0 < n <= |data| && Advances(data[n..], seek, minrepeat)
      && Pieces(addr, data, seek, minrepeat) ==
         [Summary(addr, addr + n - 1, data[0], n)] + Pieces(addr + n, data[n..], seek, minrepeat)
  {
    hide Advances, Run, RepeatSize, LineOf, LineSize;
    SummaryAdvances(data, seek, minrepeat);
  }

  lemma LineAdvances(data: seq<Byte>, seek: nat, minrepeat: nat)
    requires seek < 16 && Advances(data, seek, minrepeat) && data != [] && !Repeats(data, minrepeat)
    ensures var n := LineSize(seek, |data|);
      0 < n <= |data| && Advances(data[n..], 0, minrepeat)
  {
    hide Run, RepeatSize;
  }

  lemma NextPiece(pieces: seq<Piece>, p: Piece, rest: seq<Piece>)
    ensures (pieces + [p]) + rest == pieces + ([p] + rest)
  {}

  lemma NoPieces(addr: nat, seek: nat, minrepeat: nat)
    requires seek < 16
    ensures Pieces(addr, [], seek, minrepeat) == []
  {}

  lemma OpensWithLine(addr: nat, data: seq<Byte>, seek: nat, minrepeat: nat)
    requires seek < 16 && Advances(data, seek, minrepeat) && data != [] && !Repeats(data, minrepeat)
    ensures var n := LineSize(seek, |data|);
      && 0 < n <= |data| && Advances(data[n..], 0, minrepeat)
      && Pieces(addr, data, seek, minrepeat) ==
         [LineOf(addr, seek, data[..n])] + Pieces(addr + n, data[n..], 0, minrepeat)
  {
    hide Advances, Run, RepeatSize, LineOf, LineSize;
    LineAdvances(data, seek, minrepeat);
  }

  method DumpDataRepeat(start: nat, bytes: seq<Byte>, minrepeat: nat) returns (pieces: seq<Piece>)
    requires Advances(bytes, start % 16, minrepeat)
    ensures pieces == Pieces(start, bytes, start % 16, minrepeat)
    ensures Tiles(pieces, start, bytes)
    ensures var (k, rest) := Opening(bytes, start % 16, minrepeat);
      Labelled(pieces, start) <==> rest == [] || k * (start % 16) % 16 == 0
  {
    hide Run, Advances, Pieces, Tiles, Labelled, Opening, LineOf;
    pieces := [];
    var addr: nat, seek: nat, data := start, start % 16, bytes;
    while |data| > 0
      invariant seek < 16 && Advances(data, seek, minrepeat)
      invariant pieces + Pieces(addr, data, seek, minrepeat) == Pieces(start, bytes, start % 16, minrepeat)
      decreases |data|
    {
      if minrepeat != 0 {
        var repeat: int := Memcspn(data, data[0]);
        if repeat >= minrepeat {
          OpensWithSummary(addr, data, seek, minrepeat);
          if repeat < |data| {
            if seek != 0 {
              repeat := (repeat - 16 + seek) / 16 * 16 + 16 - seek;
            } else {
              repeat := repeat / 16 * 16;
            }
          }
          var summary := Summary(addr, addr + repeat - 1, data[0], repeat);
          NextPiece(pieces, summary, Pieces(addr + repeat, data[repeat..], seek, minrepeat));
          pieces := pieces + [summary];
          addr := addr + repeat;
          data := data[repeat..];
          continue;
        }
      }
      OpensWithLine(addr, data, seek, minrepeat);
      var length := if seek + |data| > 16 then 16 - seek else |data|;
      var line := LineOf(addr, seek, data[..length]);
      NextPiece(pieces, line, Pieces(addr + length, data[length..], 0, minrepeat));
      pieces := pieces + [line];
      addr := addr + length;
      data := data[length..];
      seek := 0;
    }
    NoPieces(addr, seek, minrepeat);
    PiecesTile(start, bytes, start % 16, minrepeat);
    LabelledExactly(start, bytes, minrepeat);
  }

  /** An unaligned dump that opens with a summary and goes on with a line labels it wrongly. */
  lemma LostColumn()
    ensures var data := seq(31, _ => 0x00) + [0x01];
      !Labelled(Pieces(1, data, 1, 16), 1)
  {
    var data: seq<Byte> := seq(31, _ => 0x00) + [0x01];
    RunIs(data, 31);
    assert RepeatSize(31, 1, 32) == 31;
    assert data[31..] == [0x01];
    var pieces := Pieces(1, data, 1, 16);
    RunIs([0x01], 1);
    assert pieces[1..] == Pieces(32, data[31..], 1, 16);
    assert pieces[1..][0] == LineOf(32, 1, [0x01][..1]);
  }

  lemma {:induction false} RunIs(data: seq<Byte>, n: nat)
    requires 0 < n <= |data| && forall k :: 0 <= k < n ==> data[k] == data[0]
    requires n < |data| ==> data[n] != data[0]
    ensures Run(data) == n
  {}
}
