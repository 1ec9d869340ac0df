/**
 * The grid-neighbour demonstration: each rank works out its left, right,
 * up and down neighbours, and merges the rank lists it received into a
 * buffer of 2 * worldSize cells in which -1 marks an unknown entry.
 */
module ParallelMpi {
  import opened Mpi

  /** A rank's neighbours; -1 stands for "no neighbour on this side". */
  datatype ConnectedNodes = ConnectedNodes(left: int, right: int, up: int, down: int)

  /** The rank that prints the merged result: rank 0. */
  predicate IsFirst(worldRank: int)
  {
    worldRank == 0
  }

  /** C++ `/` on int, which truncates toward zero. */
  function TruncDiv(x: int, d: int): (q: int)
    requires d > 0
    ensures x >= 0 ==> 0 <= q && q * d <= x < q * d + d
    ensures x < 0 ==> q <= 0 && x <= q * d < x + d
  {
    if x >= 0 then x / d else -((-x) / d)
  }

  /** `x` if it is a rank of a world of `worldSize` processes, otherwise -1. */
  function RankOrNone(x: int, worldSize: int): (r: int)
    ensures r == -1 || 0 <= r < worldSize
    ensures r != -1 ==> r == x
  {
    if x >= 0 && x < worldSize then x else -1
  }

  /**
   * The neighbours of `worldRank`: one step left or right, and half the
   * world size up or down; a neighbour outside [0, worldSize) becomes -1.
   */
  function GetConnectedNodes(worldRank: int, worldSize: int): (nodes: ConnectedNodes)
    ensures nodes.left == -1 || 0 <= nodes.left < worldSize
    ensures nodes.right == -1 || 0 <= nodes.right < worldSize
    ensures nodes.up == -1 || 0 <= nodes.up < worldSize
    ensures nodes.down == -1 || 0 <= nodes.down < worldSize
  {
    var half := TruncDiv(worldSize, 2);
    ConnectedNodes(RankOrNone(worldRank - 1, worldSize),
                   RankOrNone(worldRank + 1, worldSize),
                   RankOrNone(worldRank - half, worldSize),
                   RankOrNone(worldRank + half, worldSize))
  }

  /**
   * For a rank of the world, the exact neighbours: the left one exists
   * unless the rank is 0, the right one unless it is the last rank, and
   * the up and down ones when the rank minus or plus worldSize / 2 is a rank.
   */
  lemma NeighbourValues(worldRank: int, worldSize: int)
    requires 0 <= worldRank < worldSize
    ensures var nodes, half := GetConnectedNodes(worldRank, worldSize), worldSize / 2;
            && nodes.left == (if worldRank >= 1 then worldRank - 1 else -1)
            && nodes.right == (if worldRank + 1 < worldSize then worldRank + 1 else -1)
            && nodes.up == (if worldRank >= half then worldRank - half else -1)
            && nodes.down == (if worldRank + half < worldSize then worldRank + half else -1)
  {
  }

  /**
   * The first rank is exactly the rank without a left neighbour: the one at
   * which the leftward flood of results ends.
   */
  lemma FirstHasNoLeft(worldRank: int, worldSize: int)
    requires 0 <= worldRank < worldSize
    ensures IsFirst(worldRank) <==> GetConnectedNodes(worldRank, worldSize).left == -1
  {
  }

  /**
   * The neighbour relation is symmetric: s is r's right neighbour exactly
   * when r is s's left neighbour, and s is r's down neighbour exactly when
   * r is s's up neighbour. So every rank that sends to its left or up
   * neighbour is the one that neighbour receives from on its right or down.
   */
  lemma NeighbourSymmetry(r: int, s: int, worldSize: int)
    requires 0 <= r < worldSize && 0 <= s < worldSize
    ensures GetConnectedNodes(r, worldSize).right == s <==> GetConnectedNodes(s, worldSize).left == r
    ensures GetConnectedNodes(r, worldSize).down == s <==> GetConnectedNodes(s, worldSize).up == r
  {
  }

  /** One entry of the merge: the first list's entry unless it is -1. */
  function MergeEntry(known: int, received: int): (e: int)
    ensures e == -1 <==> known == -1 && received == -1
    ensures known != -1 ==> e == known
  {
    if known != -1 then known else received
  }

  /** The entrywise merge of two -1-padded rank lists of equal length. */
  function Combine(results1: seq<int>, results2: seq<int>): (r: seq<int>)
    requires |results1| == |results2|
    ensures |r| == |results1|
  {
    seq(|results1|, i requires 0 <= i < |results1| => MergeEntry(results1[i], results2[i]))
  }

  /**
   * The merge keeps every known entry of the first list, fills each unknown
   * one from the second, and leaves an entry unknown only when both lists
   * left it unknown.
   */
  lemma CombineEntries(results1: seq<int>, results2: seq<int>, i: int)
    requires |results1| == |results2| && 0 <= i < |results1|
    ensures |Combine(results1, results2)| == |results1|
    ensures results1[i] != -1 ==> Combine(results1, results2)[i] == results1[i]
    ensures results1[i] == -1 ==> Combine(results1, results2)[i] == results2[i]
    ensures Combine(results1, results2)[i] == -1 <==> results1[i] == -1 && results2[i] == -1
  {
  }

  /** Merging the same second list twice changes nothing more than merging it once. */
  lemma CombineIdempotent(results1: seq<int>, results2: seq<int>)
    requires |results1| == |results2|
    ensures Combine(Combine(results1, results2), results2) == Combine(results1, results2)
  {
  }

  /** Merging an all-unknown list changes nothing. */
  lemma CombineUnknown(results1: seq<int>, results2: seq<int>)
    requires |results1| == |results2|
    requires forall i :: 0 <= i < |results2| ==> results2[i] == -1
    ensures Combine(results1, results2) == results1
  {
  }

  /**
   * CombineResults(Results1, Results2, WorldSize) with the two pointers
   * given as an array and a start index each: entry i of the first window
   * becomes the merge of itself with entry i of the second, for
   * i < worldSize. The two windows may lie in one array as long as they do
   * not overlap. Nothing outside the first window changes, and the second
   * window is only read.
   */
  method CombineResults(results1: array<int>, start1: nat, results2: array<int>, start2: nat, worldSize: nat)
    requires start1 + worldSize <= results1.Length && start2 + worldSize <= results2.Length
    requires results1 == results2 ==> start1 + worldSize <= start2 || start2 + worldSize <= start1
    modifies results1
    ensures results1[..] == old(results1[..start1])
                            + Combine(old(results1[start1..start1 + worldSize]), old(results2[start2..start2 + worldSize]))
                            + old(results1[start1 + worldSize..])
    ensures results2[start2..start2 + worldSize] == old(results2[start2..start2 + worldSize])
  {
    ghost var before := results1[..];
    ghost var r1, r2 := results1[start1..start1 + worldSize], results2[start2..start2 + worldSize];
    var i := 0;
    while i < worldSize
      invariant 0 <= i <= worldSize
      invariant forall q :: 0 <= q < i ==> results1[start1 + q] == MergeEntry(r1[q], r2[q])
      invariant forall q :: 0 <= q < results1.Length && !(start1 <= q < start1 + i) ==> results1[q] == before[q]
      invariant forall q :: 0 <= q < worldSize ==> results2[start2 + q] == r2[q]
    {
      results1[start1 + i] := MergeEntry(results1[start1 + i], results2[start2 + i]);
      i := i + 1;
    }
    assert results2[start2..start2 + worldSize] == r2;
    WindowMerged(before, results1[..], start1, r1, r2);
  }

  /**
   * A buffer whose window [start, start + |r1|) holds the merge of `r1` and
   * `r2`, and which agrees with `before` everywhere else, is `before` with
   * that window replaced by Combine(r1, r2).
   */
  lemma WindowMerged(before: seq<int>, after: seq<int>, start: nat, r1: seq<int>, r2: seq<int>)
    requires |r1| == |r2| && start + |r1| <= |before| == |after|
    requires forall q :: 0 <= q < |r1| ==> after[start + q] == MergeEntry(r1[q], r2[q])
    requires forall q :: 0 <= q < |after| && !(start <= q < start + |r1|) ==> after[q] == before[q]
    ensures after == before[..start] + Combine(r1, r2) + before[start + |r1|..]
  {
    var expected := before[..start] + Combine(r1, r2) + before[start + |r1|..];
    forall q | 0 <= q < |after|
      ensures after[q] == expected[q]
    {
      if start <= q < start + |r1| {
        assert after[start + (q - start)] == MergeEntry(r1[q - start], r2[q - start]);
      }
    }
  }

  /**
   * The receive buffer of `main`: 2 * worldSize cells, all -1 (the first
   * half for the list from the right neighbour, the second for the list
   * from the down neighbour).
   */
  method NewReceivedResults(worldSize: nat) returns (received: array<int>)
    ensures fresh(received) && received.Length == 2 * worldSize
    ensures forall i :: 0 <= i < received.Length ==> received[i] == -1
  {
    received := new int[2 * worldSize];
    var i := 0;
    while i < 2 * worldSize
      invariant 0 <= i <= 2 * worldSize
      invariant forall q :: 0 <= q < i ==> received[q] == -1
    {
      received[i] := -1;
      i := i + 1;
    }
  }

  /**
   * The local merge step of `main` once the receives are done: the rank
   * records itself in the first half and merges the second half into it.
   * Afterwards the rank's own entry holds its rank and the second half is
   * as it was.
   */
  method MergeLocal(received: array<int>, worldRank: int, worldSize: int)
    requires 0 <= worldRank < worldSize && received.Length == 2 * worldSize
    modifies received
    ensures received[..worldSize] == Combine(old(received[..worldSize])[worldRank := worldRank], old(received[worldSize..]))
    ensures received[worldSize..] == old(received[worldSize..])
    ensures received[worldRank] == worldRank
  {
    received[worldRank] := worldRank;
    ghost var mid := received[..];
    CombineResults(received, 0, received, worldSize, worldSize);
    assert old(received[..worldSize])[worldRank := worldRank] == mid[..worldSize];
    assert received[..worldSize] == received[..][..worldSize];
    assert received[worldSize..] == received[..][worldSize..];
    CombineEntries(mid[..worldSize], mid[worldSize..], worldRank);
  }

  /**
   * The local step of `main` for one rank: a fresh buffer of -1, the lists
   * that arrived from the right and down neighbours (if any) received into
   * its two halves, then the rank's own entry and the merge. The merged
   * list knows the rank itself and everything either neighbour knew.
   */
  method LocalStep(worldRank: int, worldSize: int, fromRight: Option<seq<int>>, fromDown: Option<seq<int>>)
    returns (received: array<int>)
    requires 0 <= worldRank < worldSize
    requires fromRight.Some? <==> GetConnectedNodes(worldRank, worldSize).right != -1
    requires fromRight.Some? ==> |fromRight.value| <= worldSize
    requires fromDown.Some? <==> GetConnectedNodes(worldRank, worldSize).down != -1
    requires fromDown.Some? ==> |fromDown.value| <= worldSize
    ensures fresh(received) && received.Length == 2 * worldSize
    ensures received[worldSize..] == Padded(fromDown, worldSize)
    ensures received[..worldSize] == Combine(Padded(fromRight, worldSize)[worldRank := worldRank], Padded(fromDown, worldSize))
    ensures received[worldRank] == worldRank
  {
    received := ReceiveNeighbours(worldRank, worldSize, fromRight, fromDown);
    MergeLocal(received, worldRank, worldSize);
  }

  /**
   * The receive half of the local step: a fresh buffer of 2 * worldSize
   * cells of -1, then, when the rank has a right neighbour, the list that
   * neighbour sent received into the first half, and when it has a down
   * neighbour, that one's list into the second half. `fromRight` and
   * `fromDown` are the lists that arrive, present exactly when the
   * neighbour exists.
   */
  method ReceiveNeighbours(worldRank: int, worldSize: int, fromRight: Option<seq<int>>, fromDown: Option<seq<int>>)
    returns (received: array<int>)
    requires 0 <= worldRank < worldSize
    requires fromRight.Some? <==> GetConnectedNodes(worldRank, worldSize).right != -1
    requires fromRight.Some? ==> |fromRight.value| <= worldSize
    requires fromDown.Some? <==> GetConnectedNodes(worldRank, worldSize).down != -1
    requires fromDown.Some? ==> |fromDown.value| <= worldSize
    ensures fresh(received) && received.Length == 2 * worldSize
    ensures received[..worldSize] == Padded(fromRight, worldSize)
    ensures received[worldSize..] == Padded(fromDown, worldSize)
  {
    var nodes := GetConnectedNodes(worldRank, worldSize);
    received := NewReceivedResults(worldSize);
    ghost var blank := received[..];
    if nodes.right != -1 {
      Recv(received, 0, worldSize, Message(nodes.right, worldRank, 1, fromRight.value));
    }
    ghost var mid := received[..];
    ReceivedWindow(blank, mid, 0, worldSize, fromRight);
    if nodes.down != -1 {
      Recv(received, worldSize, worldSize, Message(nodes.down, worldRank, 1, fromDown.value));
    }
    ReceivedWindow(mid, received[..], worldSize, worldSize, fromDown);
    assert received[..worldSize] == mid[0..worldSize];
  }

  /** What a received list leaves in a window of `worldSize` cells that held -1: the list, then -1s. */
  function Padded(list: Option<seq<int>>, worldSize: nat): (cells: seq<int>)
    requires list.Some? ==> |list.value| <= worldSize
    ensures |cells| == worldSize
  {
    match list
    case None => seq(worldSize, _ => -1)
    case Some(l) => l + seq(worldSize - |l|, _ => -1)
  }

  /**
   * Receiving `list` (if one arrives) into a window of `worldSize` cells
   * that held -1 leaves Padded(list) there and nothing else changed.
   */
  lemma ReceivedWindow(before: seq<int>, after: seq<int>, offset: nat, worldSize: nat, list: Option<seq<int>>)
    requires offset + worldSize <= |before|
    requires list.Some? ==> |list.value| <= worldSize
    requires forall q :: offset <= q < offset + worldSize ==> before[q] == -1
    requires after == (if list.Some? then Overwrite(before, offset, list.value) else before)
    ensures |after| == |before|
    ensures after[offset..offset + worldSize] == Padded(list, worldSize)
    ensures offset + worldSize == |before| ==> after[offset..] == Padded(list, worldSize)
    ensures after[..offset] == before[..offset] && after[offset + worldSize..] == before[offset + worldSize..]
  {
    var padded := Padded(list, worldSize);
    forall q | 0 <= q < worldSize
      ensures after[offset + q] == padded[q]
    {
    }
    assert after[offset..offset + worldSize] == padded;
  }

  /**
   * The sends of `main` after the merge: the merged list goes to the left
   * neighbour and then to the up neighbour, each only if it exists, with tag 1.
   */
  function SendResults(worldRank: int, worldSize: int, list: seq<int>): (msgs: seq<Message>)
    ensures |msgs| == (if GetConnectedNodes(worldRank, worldSize).left != -1 then 1 else 0)
                      + (if GetConnectedNodes(worldRank, worldSize).up != -1 then 1 else 0)
    ensures forall m :: m in msgs ==> m.source == worldRank && m.tag == 1 && m.payload == list && m.dest != -1
    ensures var nodes := GetConnectedNodes(worldRank, worldSize);
            && (nodes.left != -1 ==> msgs[0] == Message(worldRank, nodes.left, 1, list))
            && (nodes.up != -1 ==> msgs[|msgs| - 1] == Message(worldRank, nodes.up, 1, list))
            && forall m :: m in msgs ==> m.dest == nodes.left || m.dest == nodes.up
  {
    var nodes := GetConnectedNodes(worldRank, worldSize);
    (if nodes.left != -1 then [Message(worldRank, nodes.left, 1, list)] else [])
    + (if nodes.up != -1 then [Message(worldRank, nodes.up, 1, list)] else [])
  }

  /**
   * Every message a rank sends is one its destination waits for: the
   * destination is a rank whose right or down neighbour is the sender, so
   * it posts a receive from the sender with the same tag, and the list
   * fits the worldSize cells that receive provides.
   */
  lemma SendsMatched(worldRank: int, worldSize: int, list: seq<int>, m: Message)
    requires 0 <= worldRank < worldSize && |list| == worldSize
    requires m in SendResults(worldRank, worldSize, list)
    ensures 0 <= m.dest < worldSize && |m.payload| <= worldSize
    ensures GetConnectedNodes(m.dest, worldSize).right == worldRank
            || GetConnectedNodes(m.dest, worldSize).down == worldRank
  {
    var nodes := GetConnectedNodes(worldRank, worldSize);
    NeighbourSymmetry(m.dest, worldRank, worldSize);
    if m.dest != nodes.left {
      assert m.dest == nodes.up;
    }
  }

  /**
   * A world of one process is its own up and down neighbour: rank 0 would
   * post a blocking receive from itself before sending anything.
   */
  lemma SingleRankSelfNeighbour()
    ensures GetConnectedNodes(0, 1) == ConnectedNodes(-1, -1, 0, 0)
  {
  }

  /** The list a rank that knows exactly the ranks from `worldRank` upward holds: entry i is i for i >= worldRank and -1 below. */
  function KnownFrom(worldRank: int, worldSize: nat): (list: seq<int>)
    ensures |list| == worldSize
  {
    seq(worldSize, i requires 0 <= i < worldSize => if i >= worldRank then i else -1)
  }

  /** What arrives from a neighbour that knows the ranks from itself upward; nothing when there is no neighbour. */
  function Heard(neighbour: int, worldSize: nat): Option<seq<int>>
  {
    if neighbour == -1 then None else Some(KnownFrom(neighbour, worldSize))
  }

  /**
   * The step of the flood: when the right and down neighbours each hold the
   * ranks from themselves upward, the rank's merged list holds the ranks
   * from itself upward. Both neighbours are higher ranks, so nothing below
   * the rank is ever learned.
   */
  lemma MergedKnowledge(worldRank: int, worldSize: nat)
    requires worldSize >= 2 && 0 <= worldRank < worldSize
    ensures var nodes := GetConnectedNodes(worldRank, worldSize);
            Combine(Padded(Heard(nodes.right, worldSize), worldSize)[worldRank := worldRank],
                    Padded(Heard(nodes.down, worldSize), worldSize))
            == KnownFrom(worldRank, worldSize)
  {
    var nodes := GetConnectedNodes(worldRank, worldSize);
    NeighbourValues(worldRank, worldSize);
    var first := Padded(Heard(nodes.right, worldSize), worldSize)[worldRank := worldRank];
    var second := Padded(Heard(nodes.down, worldSize), worldSize);
    var merged, known := Combine(first, second), KnownFrom(worldRank, worldSize);
    forall i | 0 <= i < worldSize
      ensures merged[i] == known[i]
    {
      CombineEntries(first, second, i);
    }
  }

  /**
   * The whole program on `worldSize` ranks, run one rank at a time from the
   * highest rank down: each rank receives from its right and down
   * neighbours, which are higher and so already done, merges, and sends its
   * list left and up. What a rank receives from its right neighbour is the
   * message that neighbour sent to its left, and what it receives from its
   * down neighbour is the one that neighbour sent up. Every rank ends
   * knowing exactly the ranks from itself upward, so the first rank, the
   * one that prints, prints 0, 1, ..., worldSize - 1.
   */
  method Flood(worldSize: nat) returns (results: seq<seq<int>>)
    requires worldSize >= 2
    ensures |results| == worldSize
    ensures forall s :: 0 <= s < worldSize ==> results[s] == KnownFrom(s, worldSize)
    ensures forall s :: 0 <= s < worldSize && IsFirst(s) ==> results[s] == seq(worldSize, i => i)
  {
    var lists := new seq<int>[worldSize];
    var r := worldSize;
    while r > 0
      invariant 0 <= r <= worldSize
      invariant forall s :: r <= s < worldSize ==> lists[s] == KnownFrom(s, worldSize)
    {
      r := r - 1;
      var nodes := GetConnectedNodes(r, worldSize);
      NeighbourValues(r, worldSize);
      var fromRight, fromDown := None, None;
      if nodes.right != -1 {
        NeighbourValues(nodes.right, worldSize);
        var sentLeft := SendResults(nodes.right, worldSize, lists[nodes.right]);
        assert sentLeft[0] == Message(nodes.right, r, 1, lists[nodes.right]);
        fromRight := Some(sentLeft[0].payload);
      }
      if nodes.down != -1 {
        NeighbourValues(nodes.down, worldSize);
        var sentUp := SendResults(nodes.down, worldSize, lists[nodes.down]);
        assert sentUp[|sentUp| - 1] == Message(nodes.down, r, 1, lists[nodes.down]);
        fromDown := Some(sentUp[|sentUp| - 1].payload);
      }
      assert fromRight == Heard(nodes.right, worldSize) && fromDown == Heard(nodes.down, worldSize);
      var received := LocalStep(r, worldSize, fromRight, fromDown);
      MergedKnowledge(r, worldSize);
      lists[r] := received[..worldSize];
    }
    results := lists[..];
  }

  datatype Option<T> = None | Some(value: T)
}
