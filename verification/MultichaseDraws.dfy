/** The draws decide the order of make_order: different draws give different orders, and every order that
    keeps the locality groups together is drawn. */
module MultichaseDraws {
  import opened Arithmetic
  import opened FisherYates
  import opened MultichaseRing

  /** The values that `bounded` returns while the first m listed groups are shuffled. */
  function GroupDraws(raw: nat -> nat, at: nat, nodes: nat, per: nat, groups: seq<int>, m: nat): seq<nat>
    requires per > 0 && GroupList(groups, nodes, per) && m <= |groups|
  {
    if m == 0 then [] else
      var before := GroupDraws(raw, at, nodes, per, groups, m - 1);
      GroupInList(groups, nodes, per, m - 1);
      before + Draws(raw, at + |before|, GroupSize(nodes, groups[m - 1], per))
  }

  /** All values that `bounded` returns for one order: for the groups, then within each group. */
  function Drawn(raw: nat -> nat, at: nat, nodes: nat, per: nat): seq<nat>
    requires per > 0
  {
    var count := Groups(nodes, per);
    GroupsInRange(raw, at, nodes, per);
    Draws(raw, at, count) + GroupDraws(raw, at + count, nodes, per, Shuffle(Draws(raw, at, count), 0), count)
  }

  /** One more group: its nodes at the end of the order, its draws at the end of the draws. */
  lemma {:induction false} NextGroup(raw: nat -> nat, at: nat, nodes: nat, per: nat, groups: seq<int>, m: nat)
    returns (draws: seq<nat>)
    requires per > 0 && m < |groups| && GroupList(groups, nodes, per)
    requires |Extended(raw, at, nodes, per, groups, m)| == |GroupDraws(raw, at, nodes, per, groups, m)|
    ensures 0 < |draws| == GroupSize(nodes, groups[m], per) && Legal(draws)
    ensures draws == Draws(raw, at + |GroupDraws(raw, at, nodes, per, groups, m)|, |draws|)
    ensures var more := Shuffle(draws, GroupStart(groups[m], per));
            && Extended(raw, at, nodes, per, groups, m + 1) == Extended(raw, at, nodes, per, groups, m) + more
            && forall i :: 0 <= i < |more| ==> InGroup(more[i], groups[m], per)
    ensures GroupDraws(raw, at, nodes, per, groups, m + 1) == GroupDraws(raw, at, nodes, per, groups, m) + draws
  {
    hide Groups, GroupList, Shuffle, Draws;
    GroupInList(groups, nodes, per, m);
    draws := Draws(raw, at + |GroupDraws(raw, at, nodes, per, groups, m)|, GroupSize(nodes, groups[m], per));
    ShufflePermutes(draws, GroupStart(groups[m], per));
  }

  lemma {:induction false} DrawnSize(raw: nat -> nat, at: nat, nodes: nat, per: nat, groups: seq<int>, m: nat)
    requires per > 0 && m <= |groups| && GroupList(groups, nodes, per)
    ensures |Extended(raw, at, nodes, per, groups, m)| == |GroupDraws(raw, at, nodes, per, groups, m)|
  {
    hide Groups, GroupSize, GroupList, Shuffle, Draws, GroupStart, InGroup;
    if m > 0 {
      DrawnSize(raw, at, nodes, per, groups, m - 1);
      var draws := NextGroup(raw, at, nodes, per, groups, m - 1);
    }
  }

  lemma SameEnds<T>(a: seq<T>, x: seq<T>, b: seq<T>, y: seq<T>)
    requires a + x == b + y && |x| == |y|
    ensures a == b && x == y
  {
    assert a == (a + x)[..|a|] && b == (b + y)[..|b|];
    assert x == (a + x)[|a|..] && y == (b + y)[|b|..];
  }

  /** The end of the order tells its last group and that group's draws. */
  lemma {:induction false} LastTells(before: seq<int>, draws: seq<nat>, g: int, before1: seq<int>, draws1: seq<nat>, g1: int,
                                     nodes: nat, per: nat)
    requires Legal(draws) && Legal(draws1) && 0 < |draws| == GroupSize(nodes, g, per) && 0 < |draws1| == GroupSize(nodes, g1, per)
    requires before + Shuffle(draws, GroupStart(g, per)) == before1 + Shuffle(draws1, GroupStart(g1, per))
    requires InGroup(Shuffle(draws, GroupStart(g, per))[|draws| - 1], g, per)
    requires InGroup(Shuffle(draws1, GroupStart(g1, per))[|draws1| - 1], g1, per)
    ensures g == g1 && before == before1 && draws == draws1
  {
    hide GroupSize, GroupStart, InGroup, Shuffle;
    var piece, piece1 := Shuffle(draws, GroupStart(g, per)), Shuffle(draws1, GroupStart(g1, per));
    assert (before + piece)[|before + piece| - 1] == piece[|piece| - 1];
    assert (before1 + piece1)[|before1 + piece1| - 1] == piece1[|piece1| - 1];
    OneGroup(piece[|piece| - 1], g, g1, per);
    SameEnds(before, piece, before1, piece1);
    UnshuffleShuffle(draws, GroupStart(g, per));
    UnshuffleShuffle(draws1, GroupStart(g, per));
  }

  lemma {:induction false} NothingDrawn(raw: nat -> nat, at: nat, nodes: nat, per: nat, groups: seq<int>)
    requires per > 0 && GroupList(groups, nodes, per)
    ensures GroupDraws(raw, at, nodes, per, groups, 0) == [] && Extended(raw, at, nodes, per, groups, 0) == []
  {
  }

  /** The order tells the groups and their draws. */
  lemma {:induction false} OrderTells(raw: nat -> nat, at: nat, groups: seq<int>, raw1: nat -> nat, at1: nat, groups1: seq<int>,
                                      nodes: nat, per: nat, m: nat)
    requires per > 0 && GroupList(groups, nodes, per) && GroupList(groups1, nodes, per) && m <= |groups| && m <= |groups1|
    requires Extended(raw, at, nodes, per, groups, m) == Extended(raw1, at1, nodes, per, groups1, m)
    ensures groups[..m] == groups1[..m]
    ensures GroupDraws(raw, at, nodes, per, groups, m) == GroupDraws(raw1, at1, nodes, per, groups1, m)
  {
    hide Groups, GroupSize, GroupList, Shuffle, Draws, GroupStart, InGroup, Extended, GroupDraws;
    if m == 0 {
      NothingDrawn(raw, at, nodes, per, groups);
      NothingDrawn(raw1, at1, nodes, per, groups1);
    } else {
      DrawnSize(raw, at, nodes, per, groups, m - 1);
      DrawnSize(raw1, at1, nodes, per, groups1, m - 1);
      var draws := NextGroup(raw, at, nodes, per, groups, m - 1);
      var draws1 := NextGroup(raw1, at1, nodes, per, groups1, m - 1);
      LastTells(Extended(raw, at, nodes, per, groups, m - 1), draws, groups[m - 1],
                Extended(raw1, at1, nodes, per, groups1, m - 1), draws1, groups1[m - 1], nodes, per);
      OrderTells(raw, at, groups, raw1, at1, groups1, nodes, per, m - 1);
      assert groups[..m] == groups[..m - 1] + [groups[m - 1]] && groups1[..m] == groups1[..m - 1] + [groups1[m - 1]];
    }
  }

  /** The draws tell the order. */
  lemma {:induction false} DrawsTell(raw: nat -> nat, at: nat, raw1: nat -> nat, at1: nat, groups: seq<int>, nodes: nat, per: nat,
                                     m: nat)
    requires per > 0 && GroupList(groups, nodes, per) && m <= |groups|
    requires GroupDraws(raw, at, nodes, per, groups, m) == GroupDraws(raw1, at1, nodes, per, groups, m)
    ensures Extended(raw, at, nodes, per, groups, m) == Extended(raw1, at1, nodes, per, groups, m)
  {
    hide Groups, GroupSize, GroupList, Shuffle, Draws, GroupStart, InGroup;
    if m > 0 {
      DrawnSize(raw, at, nodes, per, groups, m - 1);
      DrawnSize(raw1, at1, nodes, per, groups, m - 1);
      var draws := NextGroup(raw, at, nodes, per, groups, m - 1);
      var draws1 := NextGroup(raw1, at1, nodes, per, groups, m - 1);
      SameEnds(GroupDraws(raw, at, nodes, per, groups, m - 1), draws, GroupDraws(raw1, at1, nodes, per, groups, m - 1), draws1);
      DrawsTell(raw, at, raw1, at1, groups, nodes, per, m - 1);
    }
  }

  /** Two streams give the same order exactly if they give the same draws. */
  lemma {:induction false} OrderIffDraws(raw: nat -> nat, at: nat, raw1: nat -> nat, at1: nat, nodes: nat, per: nat)
    requires per > 0
    ensures OrderOf(raw, at, nodes, per) == OrderOf(raw1, at1, nodes, per) <==>
            Drawn(raw, at, nodes, per) == Drawn(raw1, at1, nodes, per)
  {
    hide Groups, GroupSize, GroupList, Shuffle, Draws, Extended, GroupDraws;
    var count := Groups(nodes, per);
    var draws, draws1 := Draws(raw, at, count), Draws(raw1, at1, count);
    var groups, groups1 := Shuffle(draws, 0), Shuffle(draws1, 0);
    GroupsInRange(raw, at, nodes, per);
    GroupsInRange(raw1, at1, nodes, per);
    if OrderOf(raw, at, nodes, per) == OrderOf(raw1, at1, nodes, per) {
      OrderTells(raw, at + count, groups, raw1, at1 + count, groups1, nodes, per, count);
      assert groups[..count] == groups && groups1[..count] == groups1;
      UnshuffleShuffle(draws, 0);
      UnshuffleShuffle(draws1, 0);
    }
    if Drawn(raw, at, nodes, per) == Drawn(raw1, at1, nodes, per) {
      assert draws == Drawn(raw, at, nodes, per)[..count] && draws1 == Drawn(raw1, at1, nodes, per)[..count];
      assert GroupDraws(raw, at + count, nodes, per, groups, count) == Drawn(raw, at, nodes, per)[count..];
      assert GroupDraws(raw1, at1 + count, nodes, per, groups1, count) == Drawn(raw1, at1, nodes, per)[count..];
      DrawsTell(raw, at + count, raw1, at1 + count, groups, nodes, per, count);
    }
  }

  // ---- Every order is drawn ----

  function Joined(pieces: seq<seq<int>>, m: nat): seq<int>
    requires m <= |pieces|
  {
    if m == 0 then [] else Joined(pieces, m - 1) + pieces[m - 1]
  }

  ghost predicate Piece(piece: seq<int>, g: int, nodes: nat, per: nat)
    requires per > 0
  {
    && 0 <= g < Groups(nodes, per) && |piece| == GroupSize(nodes, g, per) && Permutation(piece, GroupStart(g, per))
  }

  /** Whole groups, one after the other. */
  ghost predicate Pieces(pieces: seq<seq<int>>, groups: seq<int>, nodes: nat, per: nat)
    requires per > 0
  {
    |pieces| == |groups| && forall k :: 0 <= k < |groups| ==> Piece(pieces[k], groups[k], nodes, per)
  }

  lemma {:induction false} JoinedKeeps(pieces: seq<seq<int>>, more: seq<seq<int>>, m: nat)
    requires m <= |pieces|
    ensures Joined(pieces + more, m) == Joined(pieces, m)
  {
    if m > 0 {
      JoinedKeeps(pieces, more, m - 1);
    }
  }

  /** A node of the pieces lies in one of them. */
  lemma {:induction false} InPiece(pieces: seq<seq<int>>, groups: seq<int>, nodes: nat, per: nat, m: nat, v: int)
    returns (k: nat)
    requires per > 0 && Pieces(pieces, groups, nodes, per) && m <= |pieces| && v in Joined(pieces, m)
    ensures k < m && v in pieces[k] && InGroup(v, groups[k], per)
  {
    hide Groups, GroupSize;
    if v in pieces[m - 1] {
      k := m - 1;
    } else {
      k := InPiece(pieces, groups, nodes, per, m - 1, v);
    }
    assert Piece(pieces[k], groups[k], nodes, per);
    PieceInGroup(pieces[k], groups[k], nodes, per, v);
  }

  lemma PieceInGroup(piece: seq<int>, g: int, nodes: nat, per: nat, v: int)
    requires per > 0 && Piece(piece, g, nodes, per)
    ensures v in piece <==> InGroup(v, g, per) && 0 <= v < nodes
  {
    GroupBase(nodes, per, g);
    hide Groups;
  }

  lemma {:induction false} JoinedHas(pieces: seq<seq<int>>, m: nat, k: nat, v: int)
    requires k < m <= |pieces| && v in pieces[k]
    ensures v in Joined(pieces, m)
  {
    if k < m - 1 {
      JoinedHas(pieces, m - 1, k, v);
    }
  }

  /** The last place from `from` on that satisfies this group. */
  lemma {:induction false} LastOf(p: seq<int>, from: nat, g: int, per: nat) returns (e: nat)
    requires from < |p| && InGroup(p[from], g, per)
    ensures from <= e < |p| && InGroup(p[e], g, per) && forall j :: e < j < |p| ==> !InGroup(p[j], g, per)
  {
    e := |p| - 1;
    while !InGroup(p[e], g, per)
      invariant from <= e < |p| && forall j :: e < j < |p| ==> !InGroup(p[j], g, per)
      decreases e
    {
      e := e - 1;
    }
  }

  /** The groups that fill p up to `pos`. */
  ghost predicate Cut(p: seq<int>, pos: nat, nodes: nat, per: nat, groups: seq<int>, pieces: seq<seq<int>>)
    requires per > 0
  {
    && |p| == nodes && Permutation(p, 0) && Contiguous(p, per) && pos <= nodes
    && Distinct(groups) && Pieces(pieces, groups, nodes, per) && Joined(pieces, |pieces|) == p[..pos]
  }

  /** Where a new group begins, none of its nodes has come before. */
  lemma {:induction false} NewGroup(p: seq<int>, pos: nat, nodes: nat, per: nat, groups: seq<int>, pieces: seq<seq<int>>, g: int,
                                    j: nat)
    requires per > 0 && Cut(p, pos, nodes, per, groups, pieces) && pos < nodes && InGroup(p[pos], g, per)
    requires j < nodes && InGroup(p[j], g, per)
    ensures pos <= j && g !in groups
  {
    hide Groups, GroupSize, Contiguous, InGroup, GroupStart, Joined, Piece;
    assert p[pos] !in p[..pos];
    forall k: nat | k < |groups|
      ensures groups[k] != g
    {
      assert Piece(pieces[k], groups[k], nodes, per);
      PieceInGroup(pieces[k], groups[k], nodes, per, p[pos]);
      if p[pos] in pieces[k] {
        JoinedHas(pieces, |pieces|, k, p[pos]);
      }
    }
    if j < pos {
      assert p[j] in p[..pos];
      var k := InPiece(pieces, groups, nodes, per, |pieces|, p[j]);
      OneGroup(p[j], g, groups[k], per);
    }
  }

  /** A run of nodes that holds a whole group and nothing else is a permutation of it. */
  lemma RunIsPiece(run: seq<int>, g: int, nodes: nat, per: nat)
    requires per > 0 && 0 <= g < Groups(nodes, per) && Distinct(run)
    requires forall v :: v in run <==> InGroup(v, g, per) && 0 <= v < nodes
    ensures Piece(run, g, nodes, per)
  {
    var start, size := GroupStart(g, per), GroupSize(nodes, g, per);
    GroupBase(nodes, per, g);
    hide Groups;
    var shifted := seq(|run|, i requires 0 <= i < |run| => run[i] - start);
    forall v | 0 <= v < size
      ensures v in shifted
    {
      assert start + v in run;
      var i :| 0 <= i < |run| && run[i] == start + v;
      assert shifted[i] == v;
    }
    forall i | 0 <= i < |run|
      ensures 0 <= shifted[i] < size
    {
      assert run[i] in run;
    }
    CountDistinct(shifted, size);
    assert |run| == size;
    forall i | 0 <= i < |run|
      ensures start <= run[i] < start + |run|
    {
      assert run[i] in run;
    }
  }

  lemma {:induction false} NextCut(p: seq<int>, pos: nat, nodes: nat, per: nat, groups: seq<int>, pieces: seq<seq<int>>)
    returns (g: int, run: seq<int>)
    requires per > 0 && Cut(p, pos, nodes, per, groups, pieces) && pos < nodes
    ensures 0 < |run| && pos + |run| <= nodes && p[pos..pos + |run|] == run
    ensures g !in groups && Piece(run, g, nodes, per)
  {
    hide Groups, GroupSize, Joined, Pieces, GroupStart, InGroup, Piece;
    g := p[pos] / per;
    GroupOf(nodes, per, p[pos]);
    NewGroup(p, pos, nodes, per, groups, pieces, g, pos);
    var e := LastOf(p, pos, g, per);
    run := p[pos..e + 1];
    forall j | 0 <= j < nodes && InGroup(p[j], g, per)
      ensures pos <= j
    {
      NewGroup(p, pos, nodes, per, groups, pieces, g, j);
    }
    RunHolds(p, pos, e, g, per);
    hide Permutation, Contiguous, Cut;
    RunIsPiece(run, g, nodes, per);
  }

  /** From the first to the last node of a group, there is the group and nothing else. */
  lemma RunHolds(p: seq<int>, pos: nat, e: nat, g: int, per: nat)
    requires Permutation(p, 0) && Contiguous(p, per) && pos <= e < |p| && InGroup(p[pos], g, per) && InGroup(p[e], g, per)
    requires forall j :: 0 <= j < |p| && InGroup(p[j], g, per) ==> pos <= j <= e
    ensures Distinct(p[pos..e + 1]) && forall v :: v in p[pos..e + 1] <==> InGroup(v, g, per) && 0 <= v < |p|
  {
    hide InGroup;
    var run := p[pos..e + 1];
    forall v | v in run
      ensures InGroup(v, g, per) && 0 <= v < |p|
    {
      var j :| 0 <= j < |run| && run[j] == v;
      assert v == p[pos + j] && pos <= pos + j <= e;
    }
    forall v | InGroup(v, g, per) && 0 <= v < |p|
      ensures v in run
    {
      assert v in p;
      var j :| 0 <= j < |p| && p[j] == v;
      assert run[j - pos] == v;
    }
  }

  lemma {:induction false} CutAll(p: seq<int>, pos: nat, nodes: nat, per: nat, groups: seq<int>, pieces: seq<seq<int>>)
    returns (all: seq<int>, parts: seq<seq<int>>)
    requires per > 0 && Cut(p, pos, nodes, per, groups, pieces)
    ensures Cut(p, nodes, nodes, per, all, parts)
    decreases nodes - pos
  {
    hide Groups, Permutation, Contiguous, Piece;
    if pos == nodes {
      return groups, pieces;
    }
    var g, run := NextCut(p, pos, nodes, per, groups, pieces);
    JoinedKeeps(pieces, [run], |pieces|);
    assert p[..pos] + run == p[..pos + |run|];
    assert Distinct(groups + [g]);
    all, parts := CutAll(p, pos + |run|, nodes, per, groups + [g], pieces + [run]);
  }

  /** Together the groups are all groups. */
  lemma {:induction false} AllGroups(p: seq<int>, nodes: nat, per: nat, groups: seq<int>, pieces: seq<seq<int>>)
    requires per > 0 && Cut(p, nodes, nodes, per, groups, pieces)
    ensures |groups| == Groups(nodes, per) && Permutation(groups, 0)
  {
    hide Contiguous, Joined, Groups;
    assert p[..nodes] == p;
    forall h | 0 <= h < Groups(nodes, per)
      ensures h in groups
    {
      GroupBase(nodes, per, h);
      var v := GroupStart(h, per);
      assert v in p;
      var k := InPiece(pieces, groups, nodes, per, |pieces|, v);
      OneGroup(v, h, groups[k], per);
    }
    assert forall k :: 0 <= k < |groups| ==> Piece(pieces[k], groups[k], nodes, per);
    CountDistinct(groups, Groups(nodes, per));
  }

  // ---- A stream that draws them ----

  function Stream(list: seq<nat>, at: nat): nat -> nat { (k: nat) => if at <= k < at + |list| then list[k - at] else 0 }

  lemma StreamReads(list: seq<nat>, at: nat, k: nat, limit: nat)
    requires k < |list| && list[k] <= limit
    ensures Draw(Stream(list, at), at + k, limit) == list[k]
  {
    Unique(list[k], limit + 1, 0, list[k]);
  }

  lemma {:induction false} StreamDraws(list: seq<nat>, at: nat, from: nat, draws: seq<nat>)
    requires Legal(draws) && from + |draws| <= |list| && list[from..from + |draws|] == draws
    ensures Draws(Stream(list, at), at + from, |draws|) == draws
    decreases |draws|
  {
    hide Stream, Draw;
    if draws != [] {
      var n := |draws| - 1;
      assert list[from..from + n] == list[from..from + |draws|][..n];
      StreamDraws(list, at, from, draws[..n]);
      assert list[from + n] == list[from..from + |draws|][n];
      StreamReads(list, at, from + n, n);
    }
  }

  /** The draws of the first m pieces. */
  ghost function PieceDraws(pieces: seq<seq<int>>, groups: seq<int>, nodes: nat, per: nat, m: nat): (draws: seq<nat>)
    requires per > 0 && Pieces(pieces, groups, nodes, per) && m <= |pieces|
  {
    if m == 0 then [] else
      assert Piece(pieces[m - 1], groups[m - 1], nodes, per);
      PieceDraws(pieces, groups, nodes, per, m - 1) + Unshuffle(pieces[m - 1], GroupStart(groups[m - 1], per))
  }

  lemma {:induction false} PieceDrawsGrow(pieces: seq<seq<int>>, groups: seq<int>, nodes: nat, per: nat, m: nat)
    requires per > 0 && Pieces(pieces, groups, nodes, per) && m <= |pieces|
    ensures PieceDraws(pieces, groups, nodes, per, m) <= PieceDraws(pieces, groups, nodes, per, |pieces|)
    decreases |pieces| - m
  {
    hide Pieces, Unshuffle;
    if m < |pieces| {
      PieceDrawsGrow(pieces, groups, nodes, per, m + 1);
      assert PieceDraws(pieces, groups, nodes, per, m) <= PieceDraws(pieces, groups, nodes, per, m + 1);
    }
  }

  lemma {:induction false} StreamExtends(pieces: seq<seq<int>>, groups: seq<int>, nodes: nat, per: nat, m: nat, front: seq<nat>,
                                         at: nat)
    requires per > 0 && Pieces(pieces, groups, nodes, per) && m <= |pieces| && GroupList(groups, nodes, per)
    ensures var list := front + PieceDraws(pieces, groups, nodes, per, |pieces|);
            && Extended(Stream(list, at), at + |front|, nodes, per, groups, m) == Joined(pieces, m)
            && |PieceDraws(pieces, groups, nodes, per, m)| == |Joined(pieces, m)|
  {
    hide Groups, GroupList, GroupSize, GroupStart, Stream, Pieces, Shuffle, Unshuffle, Draws, Permutation;
    if m > 0 {
      var k := m - 1;
      StreamExtends(pieces, groups, nodes, per, k, front, at);
      PieceAt(pieces, groups, nodes, per, k);
      var start := GroupStart(groups[k], per);
      var draws := Unshuffle(pieces[k], start);
      var before, all := PieceDraws(pieces, groups, nodes, per, k), PieceDraws(pieces, groups, nodes, per, |pieces|);
      PieceDrawsGrow(pieces, groups, nodes, per, m);
      hide PieceDraws;
      PieceStreams(front, before, draws, all, at);
      ShuffleUnshuffle(pieces[k], start);
    }
  }

  /** The stream yields the draws of a piece when its turn comes. */
  lemma {:induction false} PieceStreams(front: seq<nat>, before: seq<nat>, draws: seq<nat>, all: seq<nat>, at: nat)
    requires Legal(draws) && before + draws <= all
    ensures Draws(Stream(front + all, at), at + |front| + |before|, |draws|) == draws
  {
    hide Legal;
    var list, from := front + all, |front| + |before|;
    assert list[from..from + |draws|] == all[|before|..|before| + |draws|];
    assert all[|before|..|before| + |draws|] == (before + draws)[|before|..] == draws;
    StreamDraws(list, at, from, draws);
  }

  lemma PieceAt(pieces: seq<seq<int>>, groups: seq<int>, nodes: nat, per: nat, k: nat)
    requires per > 0 && Pieces(pieces, groups, nodes, per) && k < |pieces|
    ensures k < |groups| && Piece(pieces[k], groups[k], nodes, per)
  {
  }

  /** Every permutation of the nodes that keeps each locality group together is the order for some draws. */
  lemma {:induction false} EveryOrderDrawn(p: seq<int>, per: nat, at: nat) returns (raw: nat -> nat)
    requires per > 0 && Permutation(p, 0) && Contiguous(p, per)
    ensures OrderOf(raw, at, |p|, per) == p
  {
    hide Groups, GroupSize, GroupList, Contiguous, Permutation, Shuffle, Unshuffle, Draws, Extended, Stream, Piece;
    var nodes := |p|;
    NothingCut(p, per);
    var groups, pieces := CutAll(p, 0, nodes, per, [], []);
    AllGroups(p, nodes, per, groups, pieces);
    var front := Unshuffle(groups, 0);
    var list := front + PieceDraws(pieces, groups, nodes, per, |pieces|);
    raw := Stream(list, at);
    assert list[0..|front|] == front;
    StreamDraws(list, at, 0, front);
    ShuffleUnshuffle(groups, 0);
    GroupsInRange(raw, at, nodes, per);
    StreamExtends(pieces, groups, nodes, per, |pieces|, front, at);
    assert p[..nodes] == p;
  }

  lemma NothingCut(p: seq<int>, per: nat)
    requires per > 0 && Permutation(p, 0) && Contiguous(p, per)
    ensures Cut(p, 0, |p|, per, [], [])
  {
    hide Permutation, Contiguous;
  }
}
