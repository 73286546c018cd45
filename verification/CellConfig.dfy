/**
 Configuration loops of the base station: segmentation of warning messages, checks of the
 carrier lists and pruning of secondary-cell lists.
 */
module CellConfig {
  import opened Bits

  // ------------------------------------------------------------------------
  // Warning message segments (SIB-11 and SIB-12)
  // ------------------------------------------------------------------------

  const SEGMENT_MAX_BYTES := 100
  const MAX_SEGMENTS := 64

  datatype SegmentType = Unset | NotLast | Last

  datatype Segment = Segment(
    msgId: nat, serialNum: nat, codingSchemePresent: bool,
    kind: SegmentType, num: nat, payload: seq<byte>)

  function Payload(segments: seq<Segment>): seq<byte> {
    if segments == [] then []
    else Payload(segments[..|segments| - 1]) + segments[|segments| - 1].payload
  }

  /** What the receiver of the segments relies on: numbered from zero, at most 100 octets and
      never empty, only the final one marked last, identities repeated, the coding scheme on
      the first one only. */
  ghost predicate WellSegmented(segments: seq<Segment>, msgId: nat, serialNum: nat) {
    forall i | 0 <= i < |segments| ::
      && segments[i].num == i
      && 0 < |segments[i].payload| <= 100
      && segments[i].kind == (if i == |segments| - 1 then Last else NotLast)
      && segments[i].msgId == msgId && segments[i].serialNum == serialNum
      && segments[i].codingSchemePresent == (i == 0)
  }

  /** More than 64 segments trip the assertion of the source. Without data the first segment
      stays as it was created. */
  method SegmentMessage(data: seq<byte>, msgId: nat, serialNum: nat) returns (ok: bool, segments: seq<Segment>)
    ensures ok <==> |data| <= 6400
    ensures ok && data != [] ==>
              && |segments| == CeilDiv(|data|, 100)
              && WellSegmented(segments, msgId, serialNum)
              && Payload(segments) == data
    ensures ok && data == [] ==> segments == [Segment(msgId, serialNum, true, Unset, 0, [])]
  {
    segments := [Segment(msgId, serialNum, true, Unset, 0, [])];
    var nofSegments := CeilDiv(|data|, SEGMENT_MAX_BYTES);
    if nofSegments > MAX_SEGMENTS {
      return false, segments;
    }
    var offset, i := 0, 0;
    ghost var done: seq<Segment> := [];
    while i != nofSegments
      invariant 0 <= i <= nofSegments
      invariant offset == (if i == nofSegments then |data| else SEGMENT_MAX_BYTES * i)
      invariant |done| == i && segments == if i == 0 then [Segment(msgId, serialNum, true, Unset, 0, [])] else done
      invariant Payload(done) == data[..offset]
      invariant forall j | 0 <= j < i ::
                  && done[j].num == j
                  && 0 < |done[j].payload| <= SEGMENT_MAX_BYTES
                  && done[j].kind == (if j == nofSegments - 1 then Last else NotLast)
                  && done[j].msgId == msgId && done[j].serialNum == serialNum
                  && done[j].codingSchemePresent == (j == 0)
      decreases nofSegments - i
    {
      if i > 0 {
        segments := segments + [Segment(segments[0].msgId, segments[0].serialNum, false, Unset, 0, [])];
      }
      var kind := if i == nofSegments - 1 then Last else NotLast;
      var bytes := Min(|data| - offset, SEGMENT_MAX_BYTES);
      var back := segments[|segments| - 1].(kind := kind, num := i, payload := data[offset..offset + bytes]);
      segments := segments[|segments| - 1 := back];
      assert data[..offset + bytes] == data[..offset] + data[offset..offset + bytes];
      ghost var next := done + [back];
      assert next[..i] == done;
      assert segments == next;
      done := next;
      offset := offset + bytes;
      i := i + 1;
    }
    assert data[..|data|] == data;
    return true, segments;
  }

  // ------------------------------------------------------------------------
  // Carrier lists
  // ------------------------------------------------------------------------

  datatype LteCell = LteCell(rfPort: nat, cellId: nat)

  /** `bandsValid` is the outcome of the channel-number checks against the band tables. */
  datatype NrCell = NrCell(rfPort: nat, pci: nat, cellId: nat, bandsValid: bool)

  ghost predicate LteListOk(cells: seq<LteCell>) {
    && (forall i | 0 <= i < |cells| :: cells[i].rfPort == i)
    && (forall i, j | 0 <= i < j < |cells| :: cells[i].cellId != cells[j].cellId)
  }

  ghost predicate NrListOk(cells: seq<NrCell>, lte: seq<LteCell>) {
    && (forall i | 0 <= i < |cells| :: cells[i].rfPort == |lte| + i && cells[i].bandsValid)
    && (forall i, j | 0 <= i < j < |cells| ::
          cells[i].cellId != cells[j].cellId && cells[i].pci != cells[j].pci)
    && (forall i, j | 0 <= i < |cells| && 0 <= j < |lte| :: cells[i].rfPort != lte[j].rfPort)
  }

  method CheckLteCells(cells: seq<LteCell>) returns (ok: bool)
    ensures ok <==> LteListOk(cells)
  {
    var nextRfPort := 0;
    for i := 0 to |cells|
      invariant nextRfPort == i
      invariant forall k | 0 <= k < i :: cells[k].rfPort == k
      invariant forall k, j | 0 <= k < i && k < j < |cells| :: cells[k].cellId != cells[j].cellId
    {
      if cells[i].rfPort != nextRfPort {
        return false;
      }
      nextRfPort := nextRfPort + 1;
      for j := i + 1 to |cells|
        invariant forall m | i < m < j :: cells[i].cellId != cells[m].cellId
      {
        if cells[i].rfPort == cells[j].rfPort {
          return false;
        }
        if cells[i].cellId == cells[j].cellId {
          return false;
        }
      }
    }
    return true;
  }

  method CheckNrCells(cells: seq<NrCell>, lte: seq<LteCell>) returns (ok: bool)
    ensures ok <==> NrListOk(cells, lte)
  {
    var nextRfPort := |lte|;
    for i := 0 to |cells|
      invariant nextRfPort == |lte| + i
      invariant forall k | 0 <= k < i :: cells[k].rfPort == |lte| + k && cells[k].bandsValid
      invariant forall k, j | 0 <= k < i && k < j < |cells| ::
                  cells[k].cellId != cells[j].cellId && cells[k].pci != cells[j].pci
      invariant forall k, j | 0 <= k < i && 0 <= j < |lte| :: cells[k].rfPort != lte[j].rfPort
    {
      if cells[i].rfPort != nextRfPort {
        return false;
      }
      nextRfPort := nextRfPort + 1;
      for j := i + 1 to |cells|
        invariant forall m | i < m < j :: cells[i].cellId != cells[m].cellId && cells[i].pci != cells[m].pci
      {
        if cells[i].rfPort == cells[j].rfPort {
          return false;
        }
        if cells[i].pci == cells[j].pci {
          return false;
        }
        if cells[i].cellId == cells[j].cellId {
          return false;
        }
      }
      for j := 0 to |lte|
        invariant forall m | 0 <= m < j :: cells[i].rfPort != lte[m].rfPort
      {
        if cells[i].rfPort == lte[j].rfPort {
          return false;
        }
      }
      if !cells[i].bandsValid {
        return false;
      }
    }
    return true;
  }

  function Ports(lte: seq<LteCell>, nr: seq<NrCell>): (r: seq<nat>)
    ensures |r| == |lte| + |nr|
  {
    seq(|lte|, i requires 0 <= i < |lte| => lte[i].rfPort) + seq(|nr|, i requires 0 <= i < |nr| => nr[i].rfPort)
  }

  /** Both checks pass if and only if LTE carriers and then NR carriers use the ports 0 to N-1
      once each, cell identities differ within either list, NR cells have different PCIs, and
      their bands are in order. */
  lemma PortsAreDense(lte: seq<LteCell>, nr: seq<NrCell>)
    ensures LteListOk(lte) && NrListOk(nr, lte) <==>
            && (forall i | 0 <= i < |Ports(lte, nr)| :: Ports(lte, nr)[i] == i)
            && (forall i, j | 0 <= i < j < |lte| :: lte[i].cellId != lte[j].cellId)
            && (forall i, j | 0 <= i < j < |nr| :: nr[i].cellId != nr[j].cellId && nr[i].pci != nr[j].pci)
            && (forall i | 0 <= i < |nr| :: nr[i].bandsValid)
  {
    var ports := Ports(lte, nr);
    assert forall i | 0 <= i < |lte| :: ports[i] == lte[i].rfPort;
    assert forall i | 0 <= i < |nr| :: ports[|lte| + i] == nr[i].rfPort;
    if LteListOk(lte) && NrListOk(nr, lte) {
      forall i | 0 <= i < |ports|
        ensures ports[i] == i
      {
        if i >= |lte| {
          assert ports[i] == nr[i - |lte|].rfPort;
        }
      }
    }
  }

  // ------------------------------------------------------------------------
  // Secondary cells
  // ------------------------------------------------------------------------

  datatype Scell = Scell(cellId: nat, crossCarrier: bool)

  /** The entries that name a cell of the configuration, in order. */
  function Known(scells: seq<Scell>, ids: set<nat>): seq<Scell> {
    if scells == [] then []
    else Known(scells[..|scells| - 1], ids) +
         if scells[|scells| - 1].cellId in ids then [scells[|scells| - 1]] else []
  }

  /** Each entry is kept or dropped by itself, unchanged and in its place: of a single entry
      exactly one that names a cell of the configuration is kept, and of two lists in a row what
      is kept of the first is followed by what is kept of the second. */
  lemma {:induction false} KnownSplits(a: seq<Scell>, b: seq<Scell>, x: Scell, ids: set<nat>)
    ensures Known([x], ids) == if x.cellId in ids then [x] else []
    ensures Known(a + b, ids) == Known(a, ids) + Known(b, ids)
    decreases |b|
  {
    assert [x][..0] == [];
    if b == [] {
      assert a + b == a;
    } else {
      var n := |b| - 1;
      assert (a + b)[..|a| + n] == a + b[..n];
      KnownSplits(a, b[..n], x, ids);
    }
  }

  /** Erases entries that name no configured cell; an entry that names the cell itself is an
      error. Afterwards every entry names another configured cell. */
  method PruneScells(cellIds: seq<nat>, own: nat, scells: seq<Scell>) returns (ok: bool, list: seq<Scell>)
    requires own in cellIds
    ensures ok <==> forall i | 0 <= i < |scells| :: scells[i].cellId != own
    ensures ok ==> list == Known(scells, set c | c in cellIds)
    ensures ok ==> forall i | 0 <= i < |list| :: list[i].cellId in cellIds && list[i].cellId != own
  {
    list := scells;
    var it := 0;
    ghost var ids := set c | c in cellIds;
    ghost var seen := 0;
    assert scells[0..] == scells;
    while it < |list|
      invariant 0 <= it <= |list| && 0 <= seen <= |scells| && |list| - it == |scells| - seen
      invariant list[it..] == scells[seen..]
      invariant list[..it] == Known(scells[..seen], ids)
      invariant forall i | 0 <= i < seen :: scells[i].cellId != own
      invariant forall i | 0 <= i < it :: list[i].cellId in cellIds && list[i].cellId != own
      decreases |list| - it
    {
      assert list[it] == list[it..][0] == scells[seen];
      assert scells[..seen + 1][..seen] == scells[..seen];
      assert list[it..][1..] == list[it + 1..] && scells[seen..][1..] == scells[seen + 1..];
      var cell := FindCell(cellIds, list[it].cellId);
      if cell == |cellIds| {
        assert (list[..it] + list[it + 1..])[it..] == list[it + 1..];
        assert (list[..it] + list[it + 1..])[..it] == list[..it];
        list := list[..it] + list[it + 1..];
      } else if cellIds[cell] == own {
        return false, list;
      } else {
        assert list[..it + 1] == list[..it] + [list[it]];
        it := it + 1;
      }
      seen := seen + 1;
    }
    assert scells[..|scells|] == scells && list[..it] == list;
    return true, list;
  }

  method FindCell(cellIds: seq<nat>, id: nat) returns (k: nat)
    ensures k <= |cellIds|
    ensures k < |cellIds| ==> cellIds[k] == id
    ensures k == |cellIds| ==> id !in cellIds
  {
    k := 0;
    while k < |cellIds|
      invariant 0 <= k <= |cellIds|
      invariant forall j | 0 <= j < k :: cellIds[j] != id
    {
      if cellIds[k] == id {
        return;
      }
      k := k + 1;
    }
  }
}
