/** Reading a FAT16 file: the cluster chain, the recursive read, and when it is a flat copy of the file. */
module Fat16Read {
  import opened Machine
  import opened DiskIO

  /** A mounted volume: the disk and the header fields the read path uses. sectorEnd is where the data area
      starts. */
  datatype Volume = Volume(disk: Disk, reservedSectors: nat, sectPerCluster: nat, sectorEnd: nat) {
    function ClusterSize(): nat {
      sectPerCluster * SECTOR_SIZE
    }

    /** The 16-bit FAT entry of a cluster. */
    function FatEntry(cluster: nat): (e: nat)
      ensures e < 0x1_0000
    {
      var pos := reservedSectors * SECTOR_SIZE + cluster * 2;
      disk.ByteAt(pos) as int + 0x100 * disk.ByteAt(pos + 1) as int
    }

    /** The byte position of a cluster's data. */
    function ClusterPos(cluster: int): int {
      (sectorEnd + (cluster - 2) * sectPerCluster) * SECTOR_SIZE
    }

    /** Following the chain n links on; None when a link is in the stop set. */
    function Walk(cluster: nat, n: nat): Option<nat>
      decreases n
    {
      if n == 0 then Some(cluster)
      else if IsStop(FatEntry(cluster)) then None
      else Walk(FatEntry(cluster), n - 1)
    }

    lemma {:induction false} WalkOneMore(cluster: nat, n: nat)
      ensures Walk(cluster, n + 1) ==
        match Walk(cluster, n)
        case None => None
        case Some(c) => if IsStop(FatEntry(c)) then None else Some(FatEntry(c))
      decreases n
    {
      if n > 0 && !IsStop(FatEntry(cluster)) {
        WalkOneMore(FatEntry(cluster), n - 1);
      }
    }

    /** The chain reaches n links, and there the cluster's bytes have positions an int can hold. */
    ghost predicate Placed(cluster: nat, n: nat) {
      var w := Walk(cluster, n);
      w.Some? ==> 0 <= ClusterPos(w.value) && ClusterPos(w.value) + 2 * ClusterSize() + SECTOR_SIZE < 0x8000_0000
    }

    /** The disk position of the q-th byte of the file starting at a cluster: the data area is one cluster after the
        other, the first of them number 2. */
    ghost function FileAddr(cluster: nat, q: nat): Option<int>
      requires sectPerCluster > 0
    {
      var cs := sectPerCluster * SECTOR_SIZE;
      match Walk(cluster, q / cs)
      case None => None
      case Some(c) => Some(sectorEnd * SECTOR_SIZE + (c - 2) * cs + q % cs)
    }

    /** Byte q of the data area is byte q % cs of cluster 2 + q / cs. */
    lemma DataAreaByte(q: nat)
      requires sectPerCluster > 0
      ensures var cs := sectPerCluster * SECTOR_SIZE;
        ClusterPos(2 + q / cs) + q % cs == sectorEnd * SECTOR_SIZE + q
    {
      var cs := sectPerCluster * SECTOR_SIZE;
      ClusterPosIs(2 + q / cs);
      assert q == cs * (q / cs) + q % cs;
    }

    lemma FileAddrIs(cluster: nat, q: nat)
      requires sectPerCluster > 0
      ensures FileAddr(cluster, q) ==
        match Walk(cluster, q / ClusterSize())
        case None => None
        case Some(c) => Some(ClusterPos(c) + q % ClusterSize())
    {
      if Walk(cluster, q / ClusterSize()).Some? {
        ClusterPosIs(Walk(cluster, q / ClusterSize()).value);
      }
    }

    lemma ClusterPosIs(c: int)
      ensures ClusterPos(c) == sectorEnd * SECTOR_SIZE + (c - 2) * (sectPerCluster * SECTOR_SIZE)
    {
    }

    /** The disk position the recursive read takes the k-th output byte from. */
    ghost function ReadAddr(cluster: nat, offset: nat, k: nat): Option<int>
      requires sectPerCluster > 0
      decreases k
    {
      if k < ClusterSize() then
        match Walk(cluster, offset / ClusterSize())
        case None => None
        case Some(c) => Some(ClusterPos(c) + offset % ClusterSize() + k)
      else ReadAddr(cluster, offset + ClusterSize(), k - ClusterSize())
    }

    /** What the recursive read delivers: None when it stops with -EIO. */
    ghost function ReadResult(cluster: nat, offset: nat, total: nat): (r: Option<seq<uint8>>)
      requires sectPerCluster > 0
      ensures r.Some? ==> |r.value| == total
      decreases total
    {
      var cs := ClusterSize();
      match Walk(cluster, offset / cs)
      case None => None
      case Some(c) =>
        var start := ClusterPos(c) + offset % cs;
        if start < 0 then None
        else if total <= cs then Some(disk.Slice(start, total))
        else
          match ReadResult(cluster, offset + cs, total - cs)
          case None => None
          case Some(rest) => Some(disk.Slice(start, cs) + rest)
    }
  }

  /** The link values that make the walk give up. */
  predicate IsStop(entry: nat) {
    entry == 0x00 || entry == 0xFF0 || entry == 0xFF6 || entry == 0xFF7 || entry == 0xFF8 || entry == 0xFFF
  }

  // ---------- The code's stop set and the standard's ----------

  const LAST_CLUSTER := 0xFFF5

  /** The FAT16 entries that name no data cluster: Microsoft's FAT specification (fatgen103), section "FAT Data
      Structure", numbers the clusters of a volume with at most 65524 of them from 2, and keeps 0 for free
      clusters, 0xFFF7 for bad ones and everything from 0xFFF8 on for the end of a chain. */
  predicate IsStandardStop(entry: nat) {
    entry < 2 || entry > LAST_CLUSTER
  }

  /** On which entries the two sets differ: the end marks and the bad mark are followed as if they were
      clusters, as is 1, and five ordinary clusters end the chain. */
  lemma StopSetsAgreeExactlyWhen(entry: nat)
    requires entry < 0x1_0000
    ensures (IsStop(entry) <==> IsStandardStop(entry)) <==>
            entry != 1 && entry <= LAST_CLUSTER && entry !in {0xFF0, 0xFF6, 0xFF7, 0xFF8, 0xFFF}
  {
  }

  /** Following the chain as the standard has it. */
  function StandardWalk(v: Volume, cluster: nat, n: nat): Option<nat>
    decreases n
  {
    if n == 0 then Some(cluster)
    else
      match StandardWalk(v, cluster, n - 1)
      case None => None
      case Some(c) => if IsStandardStop(v.FatEntry(c)) then None else Some(v.FatEntry(c))
  }

  /** The two sets judge the k-th link of the standard's chain alike. */
  ghost predicate LinkAgrees(v: Volume, cluster: nat, k: nat) {
    match StandardWalk(v, cluster, k)
    case None => true
    case Some(c) => IsStop(v.FatEntry(c)) <==> IsStandardStop(v.FatEntry(c))
  }

  /** The code and the standard reach the same cluster after k links, or neither reaches one. */
  ghost predicate WalkAgrees(v: Volume, cluster: nat, k: nat) {
    v.Walk(cluster, k) == StandardWalk(v, cluster, k)
  }

  lemma OneLinkAgrees(v: Volume, cluster: nat, n: nat)
    requires WalkAgrees(v, cluster, n)
    ensures WalkAgrees(v, cluster, n + 1) <==> LinkAgrees(v, cluster, n)
  {
    v.WalkOneMore(cluster, n);
  }

  /** The code's walk is the standard's for the first n links exactly when the two stop sets agree on every link
      on the way. */
  lemma {:induction false} WalkIsStandardExactlyWhen(v: Volume, cluster: nat, n: nat)
    ensures (forall k :: 0 <= k <= n ==> WalkAgrees(v, cluster, k)) <==>
            (forall k :: 0 <= k < n ==> LinkAgrees(v, cluster, k))
    decreases n
  {
    if n == 0 {
      assert WalkAgrees(v, cluster, 0);
    } else {
      WalkIsStandardExactlyWhen(v, cluster, n - 1);
      hide WalkAgrees, LinkAgrees;
      if WalkAgrees(v, cluster, n - 1) {
        OneLinkAgrees(v, cluster, n - 1);
      }
    }
  }

  /** A volume whose cluster 2 links to the given entry. */
  function LinkedVolume(entry: nat): Volume
    requires entry < 0x1_0000
  {
    Volume(Disk([0, 0, 0, 0, entry % 0x100, entry / 0x100]), 0, 1, 1)
  }

  /** One example of each kind: the end mark 0xFFFF is followed, and the ordinary cluster 4088 is refused. */
  lemma StopSetExamples()
    ensures LinkedVolume(0xFFFF).Walk(2, 1) == Some(0xFFFF) && StandardWalk(LinkedVolume(0xFFFF), 2, 1) == None
    ensures LinkedVolume(4088).Walk(2, 1) == None && StandardWalk(LinkedVolume(4088), 2, 1) == Some(4088)
  {
    var v, w := LinkedVolume(0xFFFF), LinkedVolume(4088);
    assert v.FatEntry(2) == 0xFFFF && w.FatEntry(2) == 4088;
    assert v.Walk(0xFFFF, 0) == Some(0xFFFF);
    assert StandardWalk(v, 2, 0) == Some(2) && StandardWalk(w, 2, 0) == Some(2);
  }

  lemma {:induction false} MulAtLeast(d: int, e: int)
    requires d > 0 && e >= 1
    ensures d * e >= d
  {
    if e > 1 {
      MulAtLeast(d, e - 1);
      assert d * e == d * (e - 1) + d;
    }
  }

  lemma DivNonNeg(a: nat, d: nat)
    requires d > 0
    ensures a / d >= 0
  {
    assert a == d * (a / d) + a % d;
    NotNegative(d, a / d);
  }

  lemma MulNonNeg(a: nat, b: nat)
    ensures a * b >= 0
  {
    if a > 0 && b > 0 {
      MulAtLeast(a, b);
    }
  }

  lemma SmallMultiple(d: int, e: int)
    requires d > 0 && -d < d * e < d
    ensures e == 0
  {
    var neg := 0 - e;
    assert d * neg == 0 - d * e;
    if e >= 1 { MulAtLeast(d, e); }
    if neg >= 1 { MulAtLeast(d, neg); }
  }

  lemma NotNegative(d: int, e: int)
    requires d > 0 && -d < d * e
    ensures e >= 0
  {
    var neg := 0 - e;
    assert d * neg == 0 - d * e;
    if neg >= 1 { MulAtLeast(d, neg); }
  }

  lemma DivModIs(x: int, d: nat, q: int, r: nat)
    requires d > 0 && x == d * q + r && r < d
    ensures x / d == q && x % d == r
  {
    assert x == d * (x / d) + x % d;
    assert d * (x / d - q) == d * (x / d) - d * q == r - x % d;
    SmallMultiple(d, x / d - q);
  }

  lemma DivStep(q: nat, cs: nat)
    requires cs > 0
    ensures (q + cs) / cs == q / cs + 1 && (q + cs) % cs == q % cs
  {
    assert q == cs * (q / cs) + q % cs;
    assert cs * (q / cs + 1) == cs * (q / cs) + cs;
    DivModIs(q + cs, cs, q / cs + 1, q % cs);
  }

  /** Adding less than a cluster to a position: within the cluster, or into the next. */
  lemma DivWithin(q: nat, k: nat, cs: nat)
    requires cs > 0
    ensures q % cs + k < cs ==> (q + k) / cs == q / cs && (q + k) % cs == q % cs + k
    ensures cs <= q % cs + k < 2 * cs ==> (q + k) / cs == q / cs + 1 && (q + k) % cs == q % cs + k - cs
  {
    assert q == cs * (q / cs) + q % cs;
    assert cs * (q / cs + 1) == cs * (q / cs) + cs;
    if q % cs + k < cs {
      DivModIs(q + k, cs, q / cs, q % cs + k);
    } else if q % cs + k < 2 * cs {
      DivModIs(q + k, cs, q / cs + 1, q % cs + k - cs);
    }
  }

  // ---------- What the read delivers ----------

  /** All links a read of `total` bytes at `offset` follows lead to clusters whose positions fit an int. */
  ghost predicate AllPlaced(v: Volume, cluster: nat, offset: nat, total: nat)
    requires v.sectPerCluster > 0
  {
    forall n :: 0 <= n <= (offset + total) / v.ClusterSize() ==> v.Placed(cluster, n)
  }

  lemma AllPlacedNext(v: Volume, cluster: nat, offset: nat, total: nat)
    requires v.sectPerCluster > 0 && total >= v.ClusterSize() && AllPlaced(v, cluster, offset, total)
    ensures AllPlaced(v, cluster, offset + v.ClusterSize(), total - v.ClusterSize())
  {
  }

  lemma PlacedHere(v: Volume, cluster: nat, offset: nat, total: nat)
    requires v.sectPerCluster > 0 && AllPlaced(v, cluster, offset, total)
    ensures v.Placed(cluster, offset / v.ClusterSize())
  {
    var cs, n := v.ClusterSize(), offset / v.ClusterSize();
    DivMonotone(offset, offset + total, cs);
    assert 0 <= n <= (offset + total) / cs;
  }

  lemma DivMonotone(a: nat, b: nat, d: nat)
    requires a <= b && d > 0
    ensures a / d <= b / d
  {
    assert a == d * (a / d) + a % d && b == d * (b / d) + b % d;
    assert d * (b / d - a / d) == d * (b / d) - d * (a / d) == b - b % d - (a - a % d);
    NotNegative(d, b / d - a / d);
  }

  /** The read fails exactly when a link it needs is in the stop set: the last cluster it starts from. */
  lemma {:induction false} ReadFailsExactlyWhen(v: Volume, cluster: nat, offset: nat, total: nat)
    requires v.sectPerCluster > 0 && AllPlaced(v, cluster, offset, total)
    ensures v.ReadResult(cluster, offset, total) == None <==>
            v.Walk(cluster, LastCluster(v, offset, total)) == None
    decreases total
  {
    var cs := v.ClusterSize();
    PlacedHere(v, cluster, offset, total);
    if total > cs {
      AllPlacedNext(v, cluster, offset, total);
      ReadFailsExactlyWhen(v, cluster, offset + cs, total - cs);
      DivStep(offset, cs);
      DivStep(total - cs - 1, cs);
      if v.Walk(cluster, offset / cs) == None {
        StoppedStaysStopped(v, cluster, offset / cs, LastCluster(v, offset, total));
      }
    } else {
      DivModIs(if total == 0 then 0 else total - 1, cs, 0, if total == 0 then 0 else total - 1);
    }
  }

  /** So while the links agree with the standard, a read fails exactly when the file, by the standard, ends before
      the last cluster the read needs. */
  lemma ReadFailsAsTheStandardSays(v: Volume, cluster: nat, offset: nat, total: nat)
    requires v.sectPerCluster > 0 && AllPlaced(v, cluster, offset, total)
    requires forall k :: 0 <= k < LastCluster(v, offset, total) ==> LinkAgrees(v, cluster, k)
    ensures v.ReadResult(cluster, offset, total) == None <==>
            StandardWalk(v, cluster, LastCluster(v, offset, total)) == None
  {
    ReadFailsExactlyWhen(v, cluster, offset, total);
    WalkIsStandardExactlyWhen(v, cluster, LastCluster(v, offset, total));
    hide AllPlaced, StandardWalk, LinkAgrees;
    assert WalkAgrees(v, cluster, LastCluster(v, offset, total));
  }

  /** The index of the last cluster a read of `total` bytes at `offset` looks up. */
  ghost function LastCluster(v: Volume, offset: nat, total: nat): nat
    requires v.sectPerCluster > 0
  {
    var last := if total == 0 then 0 else total - 1;
    DivNonNeg(offset, v.ClusterSize());
    DivNonNeg(last, v.ClusterSize());
    offset / v.ClusterSize() + last / v.ClusterSize()
  }

  lemma {:induction false} StoppedStaysStopped(v: Volume, cluster: nat, n: nat, n': nat)
    requires n <= n' && v.Walk(cluster, n) == None
    ensures v.Walk(cluster, n') == None
    decreases n
  {
    if !IsStop(v.FatEntry(cluster)) {
      StoppedStaysStopped(v, v.FatEntry(cluster), n - 1, n' - 1);
    }
  }

  /** A read that succeeds takes its k-th byte from ReadAddr. */
  lemma {:induction false} ReadBytes(v: Volume, cluster: nat, offset: nat, total: nat, k: nat)
    requires v.sectPerCluster > 0 && AllPlaced(v, cluster, offset, total)
    requires v.ReadResult(cluster, offset, total).Some? && k < total
    ensures v.ReadAddr(cluster, offset, k).Some? && v.ReadAddr(cluster, offset, k).value >= 0
    ensures v.ReadResult(cluster, offset, total).value[k] == v.disk.ByteAt(v.ReadAddr(cluster, offset, k).value)
    decreases total
  {
    var cs := v.ClusterSize();
    PlacedHere(v, cluster, offset, total);
    if k >= cs {
      AllPlacedNext(v, cluster, offset, total);
      ReadBytes(v, cluster, offset + cs, total - cs, k - cs);
    }
  }

  // ---------- When the read is a flat copy of the file ----------

  /** Links n and n + 1 of the chain are neighbours on the disk. */
  ghost predicate Contiguous(v: Volume, cluster: nat, n: nat) {
    v.Walk(cluster, n).Some? && v.Walk(cluster, n + 1).Some?
    && v.Walk(cluster, n + 1).value == v.Walk(cluster, n).value + 1
  }

  /** Every cluster boundary strictly inside the range lies between two neighbours on the disk. */
  ghost predicate BoundariesContiguous(v: Volume, cluster: nat, offset: nat, total: nat) {
    forall n: nat :: offset < Boundary(v, n) < offset + total ==> Contiguous(v, cluster, n)
  }

  /** Where cluster n of a file ends. */
  ghost function Boundary(v: Volume, n: nat): nat {
    (n + 1) * v.ClusterSize()
  }

  ghost predicate SameAddr(v: Volume, cluster: nat, offset: nat, k: nat)
    requires v.sectPerCluster > 0
  {
    v.ReadAddr(cluster, offset, k) == v.FileAddr(cluster, offset + k)
  }

  lemma NextClusterPos(v: Volume, c: nat, c': nat)
    requires v.sectPerCluster > 0
    ensures v.ClusterPos(c') == v.ClusterPos(c) + v.ClusterSize() <==> c' == c + 1
  {
    var spc := v.sectPerCluster;
    assert v.ClusterPos(c') - v.ClusterPos(c) - v.ClusterSize() == SECTOR_SIZE * (spc * (c' - c - 1)) by {
      assert (c' - 2) * spc - (c - 2) * spc - spc == spc * (c' - c - 1);
    }
    if spc * (c' - c - 1) == 0 {
      SmallMultiple(spc, c' - c - 1);
    }
  }

  /** Within the first cluster-sized piece the read is right up to the boundary, and past it exactly if the
      next cluster of the file is the next one on the disk. */
  lemma FirstPiece(v: Volume, cluster: nat, offset: nat, k: nat)
    requires v.sectPerCluster > 0 && k < v.ClusterSize() && v.Walk(cluster, offset / v.ClusterSize()).Some?
    ensures SameAddr(v, cluster, offset, k) <==>
            offset % v.ClusterSize() + k < v.ClusterSize() || Contiguous(v, cluster, offset / v.ClusterSize())
  {
    var cs, n := v.ClusterSize(), offset / v.ClusterSize();
    DivWithin(offset, k, cs);
    v.FileAddrIs(cluster, offset + k);
    hide Volume.FileAddr, Volume.ClusterPos;
    if offset % cs + k >= cs && v.Walk(cluster, n + 1).Some? {
      NextClusterPos(v, v.Walk(cluster, n).value, v.Walk(cluster, n + 1).value);
    }
  }

  lemma LaterPieces(v: Volume, cluster: nat, offset: nat, k: nat)
    requires v.sectPerCluster > 0 && k >= v.ClusterSize()
    ensures SameAddr(v, cluster, offset, k) == SameAddr(v, cluster, offset + v.ClusterSize(), k - v.ClusterSize())
  {
    assert offset + k == offset + v.ClusterSize() + (k - v.ClusterSize());
  }

  /** The first boundary after an unaligned offset. */
  lemma FirstBoundary(offset: nat, cs: nat, n: nat)
    requires cs > 0
    ensures (offset / cs + 1) * cs == offset - offset % cs + cs
    ensures n > offset / cs ==> (n + 1) * cs > offset + cs
    ensures n < offset / cs ==> (n + 1) * cs <= offset
  {
    var a := offset / cs;
    assert offset == cs * a + offset % cs;
    assert (a + 1) * cs == cs * a + cs;
    if n > a {
      MulAtLeast(cs, n - a);
      assert (n + 1) * cs == (a + 1) * cs + cs * (n - a);
    } else if n < a {
      MulAtLeast(cs, a - n);
      assert a * cs == n * cs + cs * (a - n) && (n + 1) * cs == n * cs + cs;
    }
  }

  lemma {:induction false} FlatWhenContiguous(v: Volume, cluster: nat, offset: nat, total: nat, k: nat)
    requires v.sectPerCluster > 0 && AllPlaced(v, cluster, offset, total)
    requires v.ReadResult(cluster, offset, total).Some? && k < total
    requires offset % v.ClusterSize() == 0 || BoundariesContiguous(v, cluster, offset, total)
    ensures SameAddr(v, cluster, offset, k)
    decreases total
  {
    var cs := v.ClusterSize();
    PlacedHere(v, cluster, offset, total);
    if k < cs {
      FirstPiece(v, cluster, offset, k);
      FirstBoundary(offset, cs, 0);
      assert Boundary(v, offset / cs) == offset - offset % cs + cs;
    } else {
      AllPlacedNext(v, cluster, offset, total);
      DivStep(offset, cs);
      FlatWhenContiguous(v, cluster, offset + cs, total - cs, k - cs);
      LaterPieces(v, cluster, offset, k);
    }
  }

  lemma {:induction false} ContiguousWhenFlat(v: Volume, cluster: nat, offset: nat, total: nat, n: nat)
    requires v.sectPerCluster > 0 && AllPlaced(v, cluster, offset, total)
    requires v.ReadResult(cluster, offset, total).Some? && offset % v.ClusterSize() != 0
    requires forall k :: 0 <= k < total ==> SameAddr(v, cluster, offset, k)
    requires offset < Boundary(v, n) < offset + total
    ensures Contiguous(v, cluster, n)
    decreases total
  {
    var cs := v.ClusterSize();
    FirstBoundary(offset, cs, n);
    PlacedHere(v, cluster, offset, total);
    if n == offset / cs {
      FirstPiece(v, cluster, offset, cs - offset % cs);
      assert SameAddr(v, cluster, offset, cs - offset % cs);
    } else {
      AllPlacedNext(v, cluster, offset, total);
      DivStep(offset, cs);
      var next := offset + cs;
      forall k | 0 <= k < total - cs ensures SameAddr(v, cluster, next, k) {
        LaterPieces(v, cluster, offset, k + cs);
        assert SameAddr(v, cluster, offset, k + cs);
      }
      ContiguousWhenFlat(v, cluster, offset + cs, total - cs, n);
    }
  }

  /** A successful read takes every byte from its place in the file exactly when it starts on a cluster
      boundary, or every boundary inside it lies between clusters that are neighbours on the disk. (A read
      within one cluster has no boundary inside it.) */
  lemma {:induction false} FlatExactlyWhen(v: Volume, cluster: nat, offset: nat, total: nat)
    requires v.sectPerCluster > 0 && AllPlaced(v, cluster, offset, total)
    requires v.ReadResult(cluster, offset, total).Some?
    ensures (forall k :: 0 <= k < total ==> SameAddr(v, cluster, offset, k)) <==>
            offset % v.ClusterSize() == 0 || BoundariesContiguous(v, cluster, offset, total)
  {
    if offset % v.ClusterSize() == 0 || BoundariesContiguous(v, cluster, offset, total) {
      forall k | 0 <= k < total ensures SameAddr(v, cluster, offset, k) {
        FlatWhenContiguous(v, cluster, offset, total, k);
      }
    } else if forall k :: 0 <= k < total ==> SameAddr(v, cluster, offset, k) {
      forall n: nat | offset < Boundary(v, n) < offset + total ensures Contiguous(v, cluster, n) {
        ContiguousWhenFlat(v, cluster, offset, total, n);
      }
    }
  }

  /** A volume with one file: cluster 2, then cluster 4, whose first byte is 7. Everything else is 0. */
  function ScatteredVolume(): Volume {
    Volume(Disk(seq<uint8>(2048, i => if i == 4 then 4 else if i == 1536 then 7 else 0)), 0, 1, 1)
  }

  /** Reading one cluster's worth from an unaligned position: the last byte comes from cluster 3. */
  lemma UnalignedReadWrongExample()
    ensures var v := ScatteredVolume();
      && v.ReadResult(2, 1, 512).Some? && v.ReadResult(2, 1, 512).value[511] == 0
      && v.FileAddr(2, 1 + 511) == Some(1536) && v.disk.ByteAt(1536) == 7
  {
    var v := ScatteredVolume();
    assert v.FatEntry(2) == 4;
    assert v.Walk(2, 0) == Some(2) && v.Walk(4, 0) == Some(4);
    assert v.Walk(2, 1) == Some(4);
    assert v.ClusterPos(2) == 512 && v.ClusterPos(4) == 1536;
    assert v.ReadResult(2, 1, 512) == Some(v.disk.Slice(513, 512));
  }

  /** With two sectors to a cluster and the data from sector 1 on, cluster 3 starts at sector 3: its first byte is the one
      read. */
  lemma TwoSectorExample()
    ensures var v := Volume(Disk(seq<uint8>(2560, i => if i == 1536 then 7 else 0)), 0, 2, 1);
      v.ReadResult(3, 0, 1) == Some([7]) && v.FileAddr(3, 0) == Some(1536)
  {
    var v := Volume(Disk(seq<uint8>(2560, i => if i == 1536 then 7 else 0)), 0, 2, 1);
    assert v.Walk(3, 0) == Some(3) && v.ClusterPos(3) == 1536;
    assert v.ReadResult(3, 0, 1) == Some(v.disk.Slice(1536, 1));
    assert v.disk.Slice(1536, 1) == [7];
  }

  /** The bytes [offset, offset + total) of the clusters concatenated along the chain. */
  ghost predicate IsFileRange(v: Volume, cluster: nat, offset: nat, bytes: seq<uint8>)
    requires v.sectPerCluster > 0
  {
    forall k :: 0 <= k < |bytes| ==> IsFileByte(v, cluster, offset + k, bytes[k])
  }

  ghost predicate IsFileByte(v: Volume, cluster: nat, q: nat, byte: uint8)
    requires v.sectPerCluster > 0
  {
    var a := v.FileAddr(cluster, q);
    a.Some? && a.value >= 0 && byte == v.disk.ByteAt(a.value)
  }

  lemma {:induction false} FlatCopy(v: Volume, cluster: nat, offset: nat, total: nat)
    requires v.sectPerCluster > 0 && AllPlaced(v, cluster, offset, total)
    requires v.ReadResult(cluster, offset, total).Some?
    requires offset % v.ClusterSize() == 0 || BoundariesContiguous(v, cluster, offset, total)
    ensures IsFileRange(v, cluster, offset, v.ReadResult(cluster, offset, total).value)
  {
    forall k | 0 <= k < total
      ensures IsFileByte(v, cluster, offset + k, v.ReadResult(cluster, offset, total).value[k])
    {
      ReadBytes(v, cluster, offset, total, k);
      FlatWhenContiguous(v, cluster, offset, total, k);
    }
  }

  // ---------- Several blocks ----------

  lemma BlocksSplit(size: nat, blocks: nat)
    requires blocks > 0
    ensures size * blocks == size + size * (blocks - 1) && size * (blocks - 1) >= 0
  {
    MulNonNeg(size, blocks - 1);
  }

  /** What `fat16_read` delivers for a number of blocks of one size, one after the other. */
  ghost function BlocksResult(v: Volume, cluster: nat, offset: nat, size: nat, blocks: nat): (r: Option<seq<uint8>>)
    requires v.sectPerCluster > 0
    ensures r.Some? ==> |r.value| == size * blocks
    decreases blocks
  {
    if blocks == 0 then Some([])
    else
      BlocksSplit(size, blocks);
      match v.ReadResult(cluster, offset, size)
      case None => None
      case Some(first) =>
        match BlocksResult(v, cluster, offset + size, size, blocks - 1)
        case None => None
        case Some(rest) => Some(first + rest)
  }

  /** Each block starts on a cluster boundary or has only contiguous boundaries inside it. */
  ghost predicate BlocksFlat(v: Volume, cluster: nat, offset: nat, size: nat, blocks: nat)
    requires v.sectPerCluster > 0
    decreases blocks
  {
    blocks > 0 ==>
      && AllPlaced(v, cluster, offset, size)
      && (offset % v.ClusterSize() == 0 || BoundariesContiguous(v, cluster, offset, size))
      && BlocksFlat(v, cluster, offset + size, size, blocks - 1)
  }

  /** Then the blocks together are one contiguous range of the file. */
  lemma {:induction false} BlocksAreFileRange(v: Volume, cluster: nat, offset: nat, size: nat, blocks: nat)
    requires v.sectPerCluster > 0 && BlocksFlat(v, cluster, offset, size, blocks)
    requires BlocksResult(v, cluster, offset, size, blocks).Some?
    ensures IsFileRange(v, cluster, offset, BlocksResult(v, cluster, offset, size, blocks).value)
    decreases blocks
  {
    if blocks > 0 {
      FlatCopy(v, cluster, offset, size);
      BlocksAreFileRange(v, cluster, offset + size, size, blocks - 1);
      var first := v.ReadResult(cluster, offset, size).value;
      var rest := BlocksResult(v, cluster, offset + size, size, blocks - 1).value;
      forall k | 0 <= k < |first + rest| ensures IsFileByte(v, cluster, offset + k, (first + rest)[k]) {
        if k < size {
          assert IsFileByte(v, cluster, offset + k, first[k]);
        } else {
          assert IsFileByte(v, cluster, offset + size + (k - size), rest[k - size]);
          assert offset + size + (k - size) == offset + k;
        }
      }
    }
  }

  /** Whole clusters from a cluster boundary are always read right. */
  lemma {:induction false} AlignedBlocksFlat(v: Volume, cluster: nat, offset: nat, size: nat, blocks: nat)
    requires v.sectPerCluster > 0 && AllPlaced(v, cluster, offset, size * blocks)
    requires offset % v.ClusterSize() == 0 && (blocks <= 1 || size % v.ClusterSize() == 0)
    ensures BlocksFlat(v, cluster, offset, size, blocks)
    decreases blocks
  {
    if blocks > 0 {
      var cs := v.ClusterSize();
      BlocksSplit(size, blocks);
      FewerPlaced(v, cluster, offset, size, size * blocks);
      if blocks > 1 {
        AlignedSum(offset, size, cs);
        assert offset + size + size * (blocks - 1) == offset + size * blocks;
        AlignedBlocksFlat(v, cluster, offset + size, size, blocks - 1);
      }
    }
  }

  lemma FewerPlaced(v: Volume, cluster: nat, offset: nat, total: nat, total': nat)
    requires v.sectPerCluster > 0 && total <= total' && AllPlaced(v, cluster, offset, total')
    ensures AllPlaced(v, cluster, offset, total)
  {
    DivMonotone(offset + total, offset + total', v.ClusterSize());
  }

  lemma AlignedSum(a: nat, b: nat, d: nat)
    requires d > 0 && a % d == 0 && b % d == 0
    ensures (a + b) % d == 0
  {
    assert a == d * (a / d) && b == d * (b / d);
    assert d * (a / d + b / d) == d * (a / d) + d * (b / d);
    DivModIs(a + b, d, a / d + b / d, 0);
  }

  // ---------- The code ----------

  /** `struct fat_private` and the disk streams it reads through. */
  class FatPrivate {
    const v: Volume
    const clusterRead: DiskStream
    const fatRead: DiskStream

    constructor (v: Volume)
      requires v.sectPerCluster > 0 && v.reservedSectors < 0x1_0000
      ensures this.v == v && Valid() && fresh(clusterRead) && fresh(fatRead)
    {
      this.v := v;
      clusterRead := new DiskStream(v.disk);
      fatRead := new DiskStream(v.disk);
    }

    ghost predicate Valid() {
      && clusterRead != fatRead
      && clusterRead.disk == v.disk && fatRead.disk == v.disk
      && v.sectPerCluster > 0 && v.reservedSectors < 0x1_0000
    }

    /** `fat16_get_fat_entry`. */
    method GetFatEntry(cluster: nat) returns (entry: int)
      requires Valid() && cluster < 0x1_0000
      modifies fatRead
      ensures entry == v.FatEntry(cluster)
    {
      var fatTablePos := v.reservedSectors * SECTOR_SIZE;
      var result := fatRead.Seek(fatTablePos + cluster * 2);
      var buf := new uint8[2];
      result := fatRead.Read(buf, 0, 2);
      assert buf[..] == v.disk.Slice(fatTablePos + cluster * 2, 2);
      assert buf[0] == buf[..][0] && buf[1] == buf[..][1];
      entry := buf[0] as int + 0x100 * buf[1] as int;
    }

    /** `fat16_get_cluster_offset`. */
    method GetClusterOffset(clusterStart: nat, offset: nat) returns (cluster: int)
      requires Valid() && clusterStart < 0x1_0000
      modifies fatRead
      ensures var w := v.Walk(clusterStart, offset / v.ClusterSize());
              cluster == if w == None then -EIO else w.value
      ensures cluster < 0x1_0000
    {
      var clusterTarget: nat, ahead := clusterStart, offset / v.ClusterSize();
      for i := 0 to ahead
        invariant clusterTarget < 0x1_0000
        invariant v.Walk(clusterStart, ahead) == v.Walk(clusterTarget, ahead - i)
      {
        var entry := GetFatEntry(clusterTarget);
        if IsStop(entry) {
          return -EIO;
        }
        clusterTarget := entry;
      }
      cluster := clusterTarget;
    }

    /** `fat16_read_internal_stream`, storing at out[at..]. */
    method ReadInternalStream(cluster: nat, offset: nat, total: nat, out: array<uint8>, at: nat) returns (result: int)
      requires Valid() && cluster < 0x1_0000 && at + total <= out.Length
      requires AllPlaced(v, cluster, offset, total)
      modifies clusterRead, fatRead, out
      ensures result == if v.ReadResult(cluster, offset, total) == None then -EIO else 0
      ensures result == 0 ==> out[..] == Written(old(out[..]), at, v.ReadResult(cluster, offset, total).value)
      ensures forall i :: 0 <= i < out.Length && !(at <= i < at + total) ==> out[i] == old(out[i])
      decreases total
    {
      hide Written, AllPlaced;
      var clusterSize := v.ClusterSize();
      ghost var before := out[..];
      PlacedHere(v, cluster, offset, total);
      var clusterTarget := GetClusterOffset(cluster, offset);
      if clusterTarget < 0 {
        return clusterTarget;
      }
      var clusterOffset := offset % clusterSize;
      var startSector := v.sectorEnd + (clusterTarget - 2) * v.sectPerCluster;
      var startPos := startSector * SECTOR_SIZE + clusterOffset;
      var toRead := if total > clusterSize then clusterSize else total;
      result := clusterRead.Seek(startPos);
      result := clusterRead.Read(out, at, toRead);
      assert out[..] == Written(before, at, v.disk.Slice(startPos, toRead));
      WrittenElsewhere(before, at, v.disk.Slice(startPos, toRead));
      if total - toRead > 0 {
        AllPlacedNext(v, cluster, offset, total);
        result := ReadInternalStream(cluster, offset + toRead, total - toRead, out, at + toRead);
        if result == 0 {
          WrittenTwice(before, at, v.disk.Slice(startPos, toRead), v.ReadResult(cluster, offset + toRead, total - toRead).value);
        }
      }
    }

    /** `fat16_read`: `blocks` blocks of `size` bytes from the descriptor's position, which it does not move. */
    method Read(firstCluster: nat, pos: nat, size: nat, blocks: nat, out: array<uint8>) returns (result: int)
      requires Valid() && firstCluster < 0x1_0000 && size * blocks <= out.Length
      requires forall i :: 0 <= i < blocks ==> AllPlaced(v, firstCluster, pos + size * i, size)
      modifies clusterRead, fatRead, out
      ensures result == if BlocksResult(v, firstCluster, pos, size, blocks) == None then -EIO else blocks
      ensures result >= 0 ==> out[..size * blocks] == BlocksResult(v, firstCluster, pos, size, blocks).value
    {
      hide AllPlaced, Written, BlocksResult;
      var offset, at := pos, 0;
      ghost var bytes: seq<uint8> := [];
      PrependNothing(BlocksResult(v, firstCluster, pos, size, blocks));
      for i := 0 to blocks
        invariant at == size * i && offset == pos + at && |bytes| == at <= size * blocks
        invariant out[..at] == bytes
        invariant BlocksResult(v, firstCluster, pos, size, blocks)
               == Prepend(bytes, BlocksResult(v, firstCluster, offset, size, blocks - i))
      {
        OneMoreBlock(size, i, blocks);
        BlocksStep(v, firstCluster, offset, size, blocks - i, bytes);
        ghost var before := out[..];
        result := ReadInternalStream(firstCluster, offset, size, out, at);
        if result < 0 {
          return;
        }
        ghost var block := v.ReadResult(firstCluster, offset, size).value;
        WrittenPrefix(before, at, block);
        bytes := bytes + block;
        at := at + size;
        offset := offset + size;
      }
      NoMoreBlocks(v, firstCluster, offset, size, bytes);
      result := blocks;
    }
  }

  ghost function Prepend(bytes: seq<uint8>, r: Option<seq<uint8>>): Option<seq<uint8>> {
    if r.None? then None else Some(bytes + r.value)
  }

  lemma OneMoreBlock(size: nat, i: nat, blocks: nat)
    requires i < blocks
    ensures size * (i + 1) == size * i + size <= size * blocks
  {
    assert size * blocks == size * (i + 1) + size * (blocks - i - 1);
  }

  lemma BlocksStep(v: Volume, cluster: nat, offset: nat, size: nat, n: nat, bytes: seq<uint8>)
    requires v.sectPerCluster > 0 && n > 0
    ensures Prepend(bytes, BlocksResult(v, cluster, offset, size, n)) ==
      match v.ReadResult(cluster, offset, size)
      case None => None
      case Some(block) => Prepend(bytes + block, BlocksResult(v, cluster, offset + size, size, n - 1))
  {
    if v.ReadResult(cluster, offset, size).Some? && BlocksResult(v, cluster, offset + size, size, n - 1).Some? {
      var block, rest := v.ReadResult(cluster, offset, size).value, BlocksResult(v, cluster, offset + size, size, n - 1).value;
      assert bytes + (block + rest) == bytes + block + rest;
    }
  }

  lemma NoMoreBlocks(v: Volume, cluster: nat, offset: nat, size: nat, bytes: seq<uint8>)
    requires v.sectPerCluster > 0
    ensures Prepend(bytes, BlocksResult(v, cluster, offset, size, 0)) == Some(bytes)
  {
    assert bytes + [] == bytes;
  }

  lemma PrependNothing(r: Option<seq<uint8>>)
    ensures Prepend([], r) == r
  {
    assert r.Some? ==> [] + r.value == r.value;
  }

  lemma WrittenPrefix(s: seq<uint8>, at: nat, bytes: seq<uint8>)
    requires at + |bytes| <= |s|
    ensures Written(s, at, bytes)[..at + |bytes|] == s[..at] + bytes
  {
  }

  lemma WrittenElsewhere(s: seq<uint8>, at: nat, bytes: seq<uint8>)
    requires at + |bytes| <= |s|
    ensures forall i :: 0 <= i < |s| && !(at <= i < at + |bytes|) ==> Written(s, at, bytes)[i] == s[i]
  {
  }
}
