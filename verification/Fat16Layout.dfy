/** Where things lie on a FAT16 volume: what a formatter has written is what the read path reads back. */
module Fat16Layout {
  import opened Machine
  import opened DiskIO
  import opened Fat16Read
  import Fat16Dir

  /** The fields of the boot record that say where things lie. */
  datatype BootRecord = BootRecord(reservedSectors: nat, fats: nat, sectorsPerFat: nat, rootEntries: nat, sectPerCluster: nat)

  /** The sector of the root directory, as `fat16_get_root` computes it. */
  function RootPos(b: BootRecord): nat {
    b.fats * b.sectorsPerFat + b.reservedSectors
  }

  /** The sector it takes for the first one of the data area. */
  function SectorEnd(b: BootRecord): nat {
    RootPos(b) + b.rootEntries * Fat16Dir.ENTRY_SIZE / SECTOR_SIZE
  }

  /** The volume as mounted. */
  function Mounted(b: BootRecord, d: Disk): Volume {
    Volume(d, b.reservedSectors, b.sectPerCluster, SectorEnd(b))
  }

  // ---------- The standard's places ----------

  /** The first sector of the data area by Microsoft's FAT specification (fatgen103), section "FAT Data Structure": behind
      the reserved sectors, the tables, and the sectors of the root directory, the last of which may be filled in
      part. */
  function FirstDataSector(b: BootRecord): nat {
    b.reservedSectors + b.fats * b.sectorsPerFat + (b.rootEntries * 32 + 511) / 512
  }

  /** The first sector of a cluster, by the same section. */
  function FirstSectorOfCluster(b: BootRecord, cluster: int): int {
    (cluster - 2) * b.sectPerCluster + FirstDataSector(b)
  }

  /** The code agrees with the standard on every cluster exactly when the root directory fills its last sector. */
  lemma ClustersAreStandardExactlyWhen(b: BootRecord, d: Disk, cluster: nat)
    ensures Mounted(b, d).ClusterPos(cluster) == FirstSectorOfCluster(b, cluster) * 512 <==> b.rootEntries % 16 == 0
  {
    Mounted(b, d).ClusterPosIs(cluster);
    RootSectors(b.rootEntries);
    assert FirstDataSector(b) == SectorEnd(b) <==> b.rootEntries % 16 == 0;
    hide FirstDataSector, SectorEnd;
    var cs, n := b.sectPerCluster * 512, cluster - 2;
    assert FirstSectorOfCluster(b, cluster) * 512 == n * cs + FirstDataSector(b) * 512;
  }

  lemma RootSectors(entries: nat)
    ensures entries * Fat16Dir.ENTRY_SIZE / 512 == entries / 16
    ensures (entries * 32 + 511) / 512 == entries / 16 <==> entries % 16 == 0
  {
    assert entries == 16 * (entries / 16) + entries % 16;
  }

  /** The table entry of a cluster is the little-endian word at the sector and offset the standard gives it. */
  lemma TableIsStandard(b: BootRecord, d: Disk, cluster: nat)
    ensures var at := (b.reservedSectors + cluster * 2 / 512) * 512 + cluster * 2 % 512;
      Mounted(b, d).FatEntry(cluster) == d.ByteAt(at) as int + 256 * d.ByteAt(at + 1) as int
  {
  }

  /** Enki's own disk: 200 reserved sectors, two tables of 256, 64 root entries and 128 sectors to a cluster. Its data
      start at sector 716, and cluster 3 at sector 844. */
  lemma EnkiVolume(d: Disk)
    ensures var b := BootRecord(200, 2, 256, 64, 128);
      SectorEnd(b) == 716 == FirstDataSector(b) && Mounted(b, d).ClusterPos(3) == 844 * 512
  {
  }

  // ---------- Reading back what was written ----------

  function Concat(pieces: seq<seq<uint8>>): seq<uint8> {
    if pieces == [] then [] else Concat(pieces[..|pieces| - 1]) + pieces[|pieces| - 1]
  }

  ghost predicate AllLong(pieces: seq<seq<uint8>>, n: nat) {
    forall k :: 0 <= k < |pieces| ==> |pieces[k]| == n
  }

  lemma {:induction false} ConcatLength(pieces: seq<seq<uint8>>, n: nat)
    requires AllLong(pieces, n)
    ensures |Concat(pieces)| == n * |pieces|
    decreases |pieces|
  {
    if pieces != [] {
      ConcatLength(pieces[..|pieces| - 1], n);
      OneMorePiece(n, |pieces| - 1, 0, |pieces|);
    }
  }

  lemma OneMorePiece(n: nat, k: nat, r: nat, count: nat)
    requires k < count
    ensures n * (k + 1) == n * k + n
    ensures r < n ==> 0 <= n * k + r < n * count
  {
    MulNonNeg(n, k);
    MulNonNeg(n, count - k - 1);
    assert n * count == n * k + n + n * (count - k - 1);
  }

  /** Byte r of piece k. */
  lemma {:induction false} ConcatAt(pieces: seq<seq<uint8>>, n: nat, k: nat, r: nat)
    requires AllLong(pieces, n) && k < |pieces| && r < n
    ensures |Concat(pieces)| == n * |pieces| && 0 <= n * k + r < n * |pieces|
    ensures Concat(pieces)[n * k + r] == pieces[k][r]
    decreases |pieces|
  {
    var last := |pieces| - 1;
    ConcatLength(pieces, n);
    ConcatLength(pieces[..last], n);
    OneMorePiece(n, k, r, |pieces|);
    if k < last {
      ConcatAt(pieces[..last], n, k, r);
    }
  }

  /** A table entry as written: low byte first. */
  function WordBytes(entry: nat): seq<uint8>
    requires entry < 0x1_0000
  {
    [entry % 256, entry / 256]
  }

  function TableBytes(fat: seq<nat>): (pieces: seq<seq<uint8>>)
    requires forall c :: 0 <= c < |fat| ==> fat[c] < 0x1_0000
    ensures |pieces| == |fat| && AllLong(pieces, 2)
    ensures forall c :: 0 <= c < |fat| ==> pieces[c] == WordBytes(fat[c])
  {
    seq(|fat|, c requires 0 <= c < |fat| => WordBytes(fat[c]))
  }

  /** The disk holds this table and, from the first data sector on, these clusters, the first of them number 2. */
  ghost predicate Formatted(b: BootRecord, d: Disk, fat: seq<nat>, clusters: seq<seq<uint8>>) {
    && (forall c :: 0 <= c < |fat| ==> fat[c] < 0x1_0000)
    && d.Slice(b.reservedSectors * 512, 2 * |fat|) == Concat(TableBytes(fat))
    && AllLong(clusters, b.sectPerCluster * 512)
    && d.Slice(FirstDataSector(b) * 512, b.sectPerCluster * 512 * |clusters|) == Concat(clusters)
  }

  lemma FatReadsBack(b: BootRecord, d: Disk, fat: seq<nat>, clusters: seq<seq<uint8>>, c: nat)
    requires Formatted(b, d, fat, clusters) && c < |fat|
    ensures Mounted(b, d).FatEntry(c) == fat[c]
  {
    var bytes := d.Slice(b.reservedSectors * 512, 2 * |fat|);
    ConcatAt(TableBytes(fat), 2, c, 0);
    ConcatAt(TableBytes(fat), 2, c, 1);
    assert bytes[2 * c + 0] == fat[c] % 256 && bytes[2 * c + 1] == fat[c] / 256;
  }

  lemma ClusterReadsBack(b: BootRecord, d: Disk, fat: seq<nat>, clusters: seq<seq<uint8>>, k: nat, r: nat)
    requires Formatted(b, d, fat, clusters) && b.rootEntries % 16 == 0 && k < |clusters| && r < b.sectPerCluster * 512
    ensures Mounted(b, d).ClusterPos(k + 2) >= 0
    ensures d.ByteAt(Mounted(b, d).ClusterPos(k + 2) + r) == clusters[k][r]
  {
    var cs := b.sectPerCluster * 512;
    var start := FirstDataSector(b) * 512;
    ClusterPlace(b, d, k);
    hide Mounted, FirstDataSector, Volume.ClusterPos;
    ConcatAt(clusters, cs, k, r);
    MulNonNeg(cs, k);
    assert d.Slice(start, cs * |clusters|)[cs * k + r] == d.ByteAt(start + (cs * k + r));
  }

  lemma ClusterPlace(b: BootRecord, d: Disk, k: nat)
    requires b.rootEntries % 16 == 0
    ensures Mounted(b, d).ClusterPos(k + 2) == FirstDataSector(b) * 512 + b.sectPerCluster * 512 * k
  {
    ClustersAreStandardExactlyWhen(b, d, k + 2);
    assert k * b.sectPerCluster * 512 == b.sectPerCluster * 512 * k;
  }

  /** The cluster n links on, by the table as written: None at a link the code stops at, or outside the table. */
  function Chain(fat: seq<nat>, first: nat, n: nat): Option<nat>
    decreases n
  {
    if n == 0 then Some(first)
    else if first >= |fat| || IsStop(fat[first]) then None
    else Chain(fat, fat[first], n - 1)
  }

  lemma {:induction false} WalkIsChain(b: BootRecord, d: Disk, fat: seq<nat>, clusters: seq<seq<uint8>>, first: nat, n: nat)
    requires Formatted(b, d, fat, clusters) && Chain(fat, first, n).Some?
    ensures Mounted(b, d).Walk(first, n) == Chain(fat, first, n)
    decreases n
  {
    if n > 0 {
      FatReadsBack(b, d, fat, clusters, first);
      hide Formatted;
      WalkIsChain(b, d, fat, clusters, fat[first], n - 1);
    }
  }

  /** Byte q of the file that starts in cluster `first`, by the table and the clusters as written. */
  ghost predicate IsWrittenByte(cs: nat, fat: seq<nat>, clusters: seq<seq<uint8>>, first: nat, q: nat, byte: uint8)
    requires cs > 0 && AllLong(clusters, cs)
  {
    var c := Chain(fat, first, q / cs);
    c.Some? && 2 <= c.value < 2 + |clusters| && 0 <= q % cs < cs && byte == clusters[c.value - 2][q % cs]
  }

  /** The file's clusters up to byte q lie in the table and in the data area. */
  ghost predicate HasByte(cs: nat, fat: seq<nat>, count: nat, first: nat, q: nat)
    requires cs > 0
  {
    var c := Chain(fat, first, q / cs);
    c.Some? && 2 <= c.value < 2 + count
  }

  /** A successful read, under the condition that makes it flat, delivers the file as it was written. */
  lemma ReadsBackWhatWasWritten(b: BootRecord, d: Disk, fat: seq<nat>, clusters: seq<seq<uint8>>, first: nat, offset: nat,
                                total: nat, k: nat)
    requires Formatted(b, d, fat, clusters) && b.rootEntries % 16 == 0 && b.sectPerCluster > 0
    requires var v := Mounted(b, d);
      && AllPlaced(v, first, offset, total) && v.ReadResult(first, offset, total).Some?
      && (offset % v.ClusterSize() == 0 || BoundariesContiguous(v, first, offset, total))
    requires k < total && HasByte(b.sectPerCluster * 512, fat, |clusters|, first, offset + k)
    ensures var bytes := Mounted(b, d).ReadResult(first, offset, total).value;
      IsWrittenByte(b.sectPerCluster * 512, fat, clusters, first, offset + k, bytes[k])
  {
    var v, cs, q := Mounted(b, d), b.sectPerCluster * 512, offset + k;
    FlatCopy(v, first, offset, total);
    assert IsFileByte(v, first, q, v.ReadResult(first, offset, total).value[k]);
    DivNonNeg(q, cs);
    WalkIsChain(b, d, fat, clusters, first, q / cs);
    v.FileAddrIs(first, q);
    ClusterReadsBack(b, d, fat, clusters, Chain(fat, first, q / cs).value - 2, q % cs);
  }
}
