/** Reading files of a FAT32 volume: cluster chains through the table, and clusters and sectors of a file. Every
    sector can be read. */
module Fat32 {
  import opened Wrappers
  import opened Arith
  import opened Bits

  const SECTOR: nat := 512
  const EOC_MIN: nat := 0x0FFF_FFF8
  const ENTRY_MAX: nat := 0x1000_0000

  type Sector = s: seq<Byte> | |s| == SECTOR witness seq(SECTOR, _ => 0)

  datatype Volume = Volume(fatStart: nat, dataStart: nat, spc: nat, disk: nat -> Sector) {
    /** What mounting checks. */
    predicate Ok() {
      spc > 0
    }
  }

  /** A cluster that holds data of a file. */
  predicate IsData(cl: nat) {
    2 <= cl < EOC_MIN
  }

  // ---- The table ----------------------------------------------------------------------------------

  function LittleEndian(b0: Byte, b1: Byte, b2: Byte, b3: Byte): nat {
    b0 + 256 * b1 + 0x1_0000 * b2 + 0x100_0000 * b3
  }

  /** The bytes are the digits of the number to the base 256, the first one the lowest. */
  lemma LittleEndianDigits(b0: Byte, b1: Byte, b2: Byte, b3: Byte)
    ensures var r := LittleEndian(b0, b1, b2, b3);
            r % 256 == b0 && r / 256 % 256 == b1 && r / 0x1_0000 % 256 == b2 && r / 0x100_0000 == b3
  {
    var r := LittleEndian(b0, b1, b2, b3);
    assert r / 256 == b1 + 256 * b2 + 0x1_0000 * b3;
    assert r / 0x1_0000 == b2 + 256 * b3;
  }

  /** `read_fat_entry`: four bytes of the table, without the four highest bits. */
  function FatEntry(v: Volume, cl: nat): (r: nat)
    ensures r < ENTRY_MAX
  {
    var at := cl * 4;
    var sector, offset := v.disk(v.fatStart + at / SECTOR), at % SECTOR;
    LittleEndian(sector[offset], sector[offset + 1], sector[offset + 2], sector[offset + 3]) % ENTRY_MAX
  }

  /** The cluster after `k` steps from the first one, if the chain goes so far. */
  function Follow(v: Volume, start: nat, k: nat): (r: Option<nat>)
    ensures r.Some? ==> IsData(r.value)
  {
    if k == 0 then (if IsData(start) then Some(start) else None)
    else
      match Follow(v, start, k - 1)
      case None => None
      case Some(cl) => if IsData(FatEntry(v, cl)) then Some(FatEntry(v, cl)) else None
  }

  ghost predicate Acyclic(v: Volume, start: nat) {
    forall i: nat, j: nat :: i < j && Follow(v, start, j).Some? ==> Follow(v, start, i) != Follow(v, start, j)
  }

  lemma {:induction false} FollowedBefore(v: Volume, start: nat, i: nat, j: nat)
    requires i <= j && Follow(v, start, j).Some?
    ensures Follow(v, start, i).Some?
    decreases j
  {
    if i < j {
      FollowedBefore(v, start, i, j - 1);
    }
  }

  /** The first clusters of the chain. */
  ghost predicate Leads(v: Volume, start: nat, clusters: seq<nat>) {
    forall k :: 0 <= k < |clusters| ==> Follow(v, start, k) == Some(clusters[k])
  }

  lemma LeadsOn(v: Volume, start: nat, clusters: seq<nat>, cl: nat)
    requires Leads(v, start, clusters) && Follow(v, start, |clusters|) == Some(cl)
    ensures Leads(v, start, clusters + [cl])
    ensures Follow(v, start, |clusters| + 1) == if IsData(FatEntry(v, cl)) then Some(FatEntry(v, cl)) else None
  {
  }

  /** The clusters of a chain are different data clusters, so they are fewer than the entries there can be. */
  lemma ChainBound(v: Volume, start: nat, clusters: seq<nat>)
    requires Acyclic(v, start) && Leads(v, start, clusters)
    ensures |clusters| <= EOC_MIN
  {
    assert forall k :: 0 <= k < |clusters| ==> clusters[k] < EOC_MIN;
    forall i, j | 0 <= i < j < |clusters| ensures clusters[i] != clusters[j] {
      assert Follow(v, start, i) != Follow(v, start, j);
    }
    NoDupBound(clusters, EOC_MIN);
  }

  /** A repeated cluster repeats its successors. */
  lemma {:induction false} Periodic(v: Volume, start: nat, i: nat, j: nat, k: nat)
    requires Follow(v, start, i) == Follow(v, start, j)
    ensures Follow(v, start, i + k) == Follow(v, start, j + k)
    decreases k
  {
    if k > 0 {
      Periodic(v, start, i, j, k - 1);
    }
  }

  /** A chain that comes back to a cluster never ends. */
  lemma {:induction false} CycleGoesOn(v: Volume, start: nat, i: nat, j: nat, n: nat)
    requires i < j && Follow(v, start, j).Some? && Follow(v, start, i) == Follow(v, start, j)
    ensures Follow(v, start, n).Some?
    decreases n
  {
    if n <= j {
      FollowedBefore(v, start, n, j);
    } else {
      CycleGoesOn(v, start, i, j, n - (j - i));
      Periodic(v, start, i, j, n - j);
    }
  }

  /** The followed clusters up to a step. */
  function Followed(v: Volume, start: nat, n: nat): (r: seq<nat>)
    requires n > 0 ==> Follow(v, start, n - 1).Some?
    ensures |r| == n && Leads(v, start, r)
  {
    if n == 0 then []
    else
      FollowedBefore(v, start, if n >= 2 then n - 2 else 0, n - 1);
      Followed(v, start, n - 1) + [Follow(v, start, n - 1).value]
  }

  lemma EndingIsAcyclic(v: Volume, start: nat, n: nat)
    requires Follow(v, start, n).None?
    ensures Acyclic(v, start)
  {
    forall i: nat, j: nat | i < j && Follow(v, start, j).Some? ensures Follow(v, start, i) != Follow(v, start, j) {
      if Follow(v, start, i) == Follow(v, start, j) {
        CycleGoesOn(v, start, i, j, n);
      }
    }
  }

  lemma AcyclicEnds(v: Volume, start: nat)
    requires Acyclic(v, start)
    ensures Follow(v, start, EOC_MIN).None?
  {
    if Follow(v, start, EOC_MIN).Some? {
      ChainBound(v, start, Followed(v, start, EOC_MIN + 1));
    }
  }

  /** A chain ends if and only if it is acyclic. */
  lemma EndsExact(v: Volume, start: nat)
    ensures Acyclic(v, start) <==> exists n: nat :: Follow(v, start, n).None?
  {
    if n: nat :| Follow(v, start, n).None? {
      EndingIsAcyclic(v, start, n);
    } else if Acyclic(v, start) {
      AcyclicEnds(v, start);
    }
  }

  /** `cluster_chain`: all clusters from the first to the last. The loop ends because the chain is acyclic. */
  method ClusterChain(v: Volume, start: nat) returns (clusters: seq<nat>)
    requires Acyclic(v, start)
    ensures Leads(v, start, clusters) && Follow(v, start, |clusters|).None? && AllData(clusters)
  {
    clusters := [];
    var cl: nat := start;
    while true
      invariant Leads(v, start, clusters)
      invariant Follow(v, start, |clusters|) == if IsData(cl) then Some(cl) else None
      decreases EOC_MIN - |clusters|
    {
      if cl < 2 || cl >= EOC_MIN {
        break;
      }
      LeadsOn(v, start, clusters, cl);
      clusters := clusters + [cl];
      ChainBound(v, start, clusters);
      var next := FatEntry(v, cl);
      if next < 2 || next >= EOC_MIN {
        break;
      }
      cl := next;
    }
  }

  // ---- The bytes of a file ------------------------------------------------------------------------

  /** `cluster_to_lba`. */
  function ClusterLba(v: Volume, cl: nat): nat
    requires IsData(cl)
  {
    v.dataStart + (cl - 2) * v.spc
  }

  /** Consecutive sectors. */
  function Sectors(v: Volume, lba: nat, n: nat): (r: seq<Byte>)
    ensures |r| == n * SECTOR
  {
    if n == 0 then [] else Sectors(v, lba, n - 1) + v.disk(lba + n - 1)
  }

  function ClusterBytes(v: Volume, cl: nat): seq<Byte>
    requires IsData(cl)
  {
    Sectors(v, ClusterLba(v, cl), v.spc)
  }

  predicate AllData(clusters: seq<nat>) {
    forall k :: 0 <= k < |clusters| ==> IsData(clusters[k])
  }

  /** Where cluster number `k` of a file starts in it. */
  function Starts(v: Volume, k: nat): nat {
    if k == 0 then 0 else Starts(v, k - 1) + v.spc * SECTOR
  }

  lemma {:induction false} StartsAt(v: Volume, k: nat)
    ensures Starts(v, k) == k * (v.spc * SECTOR)
  {
    var cb := v.spc * SECTOR;
    if k > 0 {
      StartsAt(v, k - 1);
      assert k * cb == (k - 1) * cb + cb;
    }
  }

  lemma {:induction false} StartsMono(v: Volume, j: nat, k: nat)
    requires j <= k
    ensures Starts(v, j) <= Starts(v, k)
    decreases k
  {
    if j < k {
      StartsMono(v, j, k - 1);
    }
  }

  /** The clusters of a file, one after the other. */
  function FileBytes(v: Volume, clusters: seq<nat>): (r: seq<Byte>)
    requires AllData(clusters)
    ensures |r| == Starts(v, |clusters|)
  {
    if clusters == [] then []
    else
      var n := |clusters| - 1;
      FileBytes(v, clusters[..n]) + ClusterBytes(v, clusters[n])
  }

  /** The data area starts with cluster 2, and each cluster starts where the one before ends. */
  lemma ClustersInRow(v: Volume, cl: nat)
    requires IsData(cl) && IsData(cl + 1)
    ensures ClusterLba(v, 2) == v.dataStart && ClusterLba(v, cl + 1) == ClusterLba(v, cl) + v.spc
  {
    assert (cl + 1 - 2) * v.spc == (cl - 2) * v.spc + v.spc;
  }

  /** Different clusters share no sector. */
  lemma ClustersApart(v: Volume, a: nat, b: nat)
    requires IsData(a) && IsData(b) && a < b
    ensures ClusterLba(v, a) + v.spc <= ClusterLba(v, b)
  {
    MulMono(a - 1, b - 2, v.spc);
    assert (a - 1) * v.spc == (a - 2) * v.spc + v.spc;
  }

  /** Sectors read from inside a longer stretch are a slice of it. */
  lemma {:induction false} SectorsSlice(v: Volume, lba: nat, a: nat, m: nat, n: nat)
    requires a + m <= n
    ensures a * SECTOR <= (a + m) * SECTOR <= n * SECTOR
    ensures Sectors(v, lba + a, m) == Sectors(v, lba, n)[a * SECTOR..(a + m) * SECTOR]
    decreases n
  {
    if m > 0 {
      if a + m < n {
        SectorsSlice(v, lba, a, m, n - 1);
      } else {
        SectorsSlice(v, lba, a, m - 1, n - 1);
      }
    }
  }

  lemma {:induction false} SectorByte(v: Volume, lba: nat, k: nat, at: nat, n: nat)
    requires k < n && at < SECTOR
    ensures Sectors(v, lba, n)[k * SECTOR + at] == v.disk(lba + k)[at]
    decreases n
  {
    if k < n - 1 {
      SectorByte(v, lba, k, at, n - 1);
    }
  }

  /** An entry lies in one sector. */
  lemma EntryPlace(cl: nat, n: nat)
    requires cl * 4 + 4 <= n * SECTOR
    ensures var k, at := cl * 4 / SECTOR, cl * 4 % SECTOR;
            k * SECTOR + at == cl * 4 && at + 4 <= SECTOR && k < n
  {
    var j := cl % 128;
    assert cl * 4 == (cl / 128) * SECTOR + j * 4;
    DivModUnique(cl * 4, SECTOR, cl / 128, j * 4);
  }

  /** An entry is four bytes of the table in a row, wherever the sectors of the table end. */
  lemma FatEntryExact(v: Volume, cl: nat, n: nat)
    requires cl * 4 + 4 <= n * SECTOR
    ensures var table := Sectors(v, v.fatStart, n);
            FatEntry(v, cl) ==
            LittleEndian(table[cl * 4], table[cl * 4 + 1], table[cl * 4 + 2], table[cl * 4 + 3]) % ENTRY_MAX
  {
    var k, at := cl * 4 / SECTOR, cl * 4 % SECTOR;
    EntryPlace(cl, n);
    SectorByte(v, v.fatStart, k, at, n);
    SectorByte(v, v.fatStart, k, at + 1, n);
    SectorByte(v, v.fatStart, k, at + 2, n);
    SectorByte(v, v.fatStart, k, at + 3, n);
  }

  /** A cluster is its place in the file. */
  lemma {:induction false} FileSlice(v: Volume, clusters: seq<nat>, k: nat)
    requires AllData(clusters) && k < |clusters|
    ensures Starts(v, k) <= Starts(v, k + 1) <= |FileBytes(v, clusters)|
    ensures FileBytes(v, clusters)[Starts(v, k)..Starts(v, k + 1)] == ClusterBytes(v, clusters[k])
    decreases clusters
  {
    var n := |clusters| - 1;
    var before, last := FileBytes(v, clusters[..n]), ClusterBytes(v, clusters[n]);
    StartsMono(v, k + 1, |clusters|);
    if k < n {
      FileSlice(v, clusters[..n], k);
      SliceOfFirst(before, last, Starts(v, k), Starts(v, k + 1));
    } else {
      SliceOfLast(before, last);
    }
  }

  lemma SliceOfFirst(f: seq<Byte>, g: seq<Byte>, a: nat, b: nat)
    requires a <= b <= |f|
    ensures (f + g)[a..b] == f[a..b]
  {
  }

  lemma SliceOfLast(f: seq<Byte>, g: seq<Byte>)
    ensures (f + g)[|f|..|f| + |g|] == g
  {
  }

  lemma PieceOfFile(v: Volume, clusters: seq<nat>, k: nat, at: nat, n: nat)
    requires AllData(clusters) && k < |clusters| && at + n <= v.spc * SECTOR
    ensures var p := Starts(v, k) + at;
            && p + n <= |FileBytes(v, clusters)|
            && FileBytes(v, clusters)[p..p + n] == ClusterBytes(v, clusters[k])[at..at + n]
  {
    FileSlice(v, clusters, k);
    SliceOfSlice(FileBytes(v, clusters), Starts(v, k), Starts(v, k + 1), at, at + n);
  }

  lemma SliceOfSlice(f: seq<Byte>, lo: nat, hi: nat, a: nat, b: nat)
    requires lo <= hi <= |f| && a <= b <= hi - lo
    ensures f[lo..hi][a..b] == f[lo + a..lo + b]
  {
    forall k | 0 <= k < b - a ensures f[lo..hi][a..b][k] == f[lo + a..lo + b][k] {
      assert f[lo..hi][a + k] == f[lo + (a + k)];
    }
  }

  /** The sectors a read touches lie inside the cluster. */
  lemma InsideCluster(at: nat, n: nat, spc: nat)
    requires at + n <= spc * SECTOR
    ensures at / SECTOR + (at % SECTOR + n + SECTOR - 1) / SECTOR <= spc
    ensures at % SECTOR + n <= (at % SECTOR + n + SECTOR - 1) / SECTOR * SECTOR
  {
  }

  /** `read_sectors` into a buffer of that size. */
  method ReadSectors(v: Volume, lba: nat, count: nat) returns (r: seq<Byte>)
    ensures r == Sectors(v, lba, count)
  {
    r := [];
    for i := 0 to count
      invariant r == Sectors(v, lba, i)
    {
      r := r + v.disk(lba + i);
    }
  }

  /** Bytes of one cluster, read by whole sectors of that cluster only. */
  method ReadPiece(v: Volume, cl: nat, at: nat, n: nat) returns (r: seq<Byte>, first: nat, count: nat)
    requires IsData(cl) && at + n <= v.spc * SECTOR
    ensures |r| == n && r == ClusterBytes(v, cl)[at..at + n]
    ensures ClusterLba(v, cl) <= first && first + count <= ClusterLba(v, cl) + v.spc
  {
    InsideCluster(at, n, v.spc);
    var lba := ClusterLba(v, cl);
    var skip, offset := at / SECTOR, at % SECTOR;
    first, count := lba + skip, (offset + n + SECTOR - 1) / SECTOR;
    var tmp := ReadSectors(v, first, count);
    SectorsSlice(v, lba, skip, count, v.spc);
    SliceOfSlice(Sectors(v, lba, v.spc), skip * SECTOR, (skip + count) * SECTOR, offset, offset + n);
    r := tmp[offset..offset + n];
  }

  function Min(a: int, b: int): int {
    if a < b then a else b
  }

  /** The position after a read of `n` bytes of a file of that length. */
  function After(length: nat, at: nat, n: nat): (r: nat)
    ensures at <= r
  {
    if at >= length then at else Min(at + n, length)
  }

  /** What a read of `n` bytes gets of a file. */
  function ReadAt(file: seq<Byte>, at: nat, n: nat): (r: seq<Byte>)
    ensures at + |r| == After(|file|, at, n)
  {
    if at >= |file| then [] else file[at..After(|file|, at, n)]
  }

  /** What reads in a row get, each from where the one before it ended. */
  function ReadAll(file: seq<Byte>, at: nat, ns: seq<nat>): seq<Byte>
    decreases ns
  {
    if ns == [] then [] else ReadAt(file, at, ns[0]) + ReadAll(file, After(|file|, at, ns[0]), ns[1..])
  }

  function Sum(ns: seq<nat>): nat {
    if ns == [] then 0 else ns[0] + Sum(ns[1..])
  }

  lemma ReadTwice(file: seq<Byte>, at: nat, n: nat, m: nat)
    ensures ReadAt(file, at, n) + ReadAt(file, After(|file|, at, n), m) == ReadAt(file, at, n + m)
  {
    var b, c := After(|file|, at, n), After(|file|, at, n + m);
    if b < |file| {
      assert file[at..b] + file[b..c] == file[at..c];
    }
  }

  /** Any reads in a row get what one long read gets. */
  lemma {:induction false} ReadsConcatenate(file: seq<Byte>, at: nat, ns: seq<nat>)
    ensures ReadAll(file, at, ns) == ReadAt(file, at, Sum(ns))
    decreases |ns|
  {
    if ns != [] {
      ReadsConcatenate(file, After(|file|, at, ns[0]), ns[1..]);
      ReadTwice(file, at, ns[0], Sum(ns[1..]));
    }
  }

  /** A buffer filled with the bytes of the clusters, up to the size of the file, holds a read of the file. */
  lemma FilledIsRead(f: seq<Byte>, size: nat, at: nat, buf: seq<Byte>, n: nat)
    requires at < size && at <= |f| && n == Min(Min(|buf|, size - at), |f| - at)
    requires forall i :: 0 <= i < n ==> buf[i] == f[at + i]
    ensures var file := f[..Min(size, |f|)];
            at + n == After(|file|, at, |buf|) && buf[..n] == ReadAt(file, at, |buf|)
  {
  }

  class File {
    const v: Volume
    const clusters: seq<nat>
    const fileSize: nat
    var position: nat

    constructor (v: Volume, fileSize: nat, clusters: seq<nat>)
      ensures this.v == v && this.clusters == clusters && this.fileSize == fileSize && position == 0
    {
      this.v, this.clusters, this.fileSize, position := v, clusters, fileSize, 0;
    }

    /** The file: the concatenated clusters up to its size, or all of them when they do not cover it. */
    ghost function Contents(): seq<Byte>
      requires AllData(clusters)
    {
      FileBytes(v, clusters)[..Min(fileSize, |FileBytes(v, clusters)|)]
    }

    /** `copy_from_slice`. */
    method Write(buf: array<Byte>, at: nat, piece: seq<Byte>)
      requires at + |piece| <= buf.Length
      modifies buf
      ensures forall k :: 0 <= k < buf.Length ==>
                buf[k] == if at <= k < at + |piece| then piece[k - at] else old(buf[k])
    {
      forall k | 0 <= k < |piece| {
        buf[at + k] := piece[k];
      }
    }

    /** One turn of the loop over clusters: bytes of one cluster after the first `n` of the buffer. */
    method ReadOne(buf: array<Byte>, k: nat, at: nat, n: nat, max: nat) returns (end: nat)
      requires AllData(clusters) && k < |clusters| && at <= v.spc * SECTOR && n <= max <= buf.Length
      modifies buf
      ensures end == n + Min(max - n, v.spc * SECTOR - at)
      ensures Starts(v, k) + at + (end - n) <= |FileBytes(v, clusters)|
      ensures forall i :: n <= i < end ==> buf[i] == FileBytes(v, clusters)[Starts(v, k) + at + (i - n)]
      ensures forall i :: 0 <= i < n || end <= i < buf.Length ==> buf[i] == old(buf[i])
    {
      var toRead := Min(max - n, v.spc * SECTOR - at);
      PieceOfFile(v, clusters, k, at, toRead);
      var piece, _, _ := ReadPiece(v, clusters[k], at, toRead);
      Write(buf, n, piece);
      end := n + toRead;
      ghost var p := Starts(v, k) + at;
      assert forall i :: 0 <= i < toRead ==> piece[i] == FileBytes(v, clusters)[p..p + toRead][i];
    }

    /** The loop over clusters: `max` bytes from a position, or up to the end of the last cluster. */
    method ReadClusters(buf: array<Byte>, index: nat, offset: nat, max: nat) returns (n: nat)
      requires AllData(clusters) && index < |clusters| && offset < v.spc * SECTOR && max <= buf.Length
      modifies buf
      ensures var start, f := Starts(v, index) + offset, FileBytes(v, clusters);
              && start <= |f| && n == Min(max, |f| - start)
              && forall i :: 0 <= i < n ==> buf[i] == f[start + i]
      ensures forall i :: n <= i < buf.Length ==> buf[i] == old(buf[i])
    {
      ghost var start: nat, f := Starts(v, index) + offset, FileBytes(v, clusters);
      PieceOfFile(v, clusters, index, offset, 0);
      n := 0;
      var at := offset;
      for ci := index to |clusters|
        invariant n <= max && start + n <= |f| && 0 <= at <= v.spc * SECTOR
        invariant ci > index ==> at == 0
        invariant n < max ==> start + n == Starts(v, ci) + at
        invariant forall i :: 0 <= i < n ==> buf[i] == f[start + i]
        invariant forall i :: n <= i < buf.Length ==> buf[i] == old(buf[i])
      {
        if n >= max {
          break;
        }
        n := ReadOne(buf, ci, at, n, max);
        at := 0;
      }
    }

    /** `read`: the next bytes of the file, as many as the buffer holds or are left. */
    method Read(buf: array<Byte>) returns (n: nat)
      requires v.Ok() && AllData(clusters)
      modifies this`position, buf
      ensures var r := ReadAt(Contents(), old(position), buf.Length);
              n == |r| && buf[..n] == r && position == old(position) + n
      ensures buf[n..] == old(buf[n..])
    {
      if |clusters| == 0 {
        return 0;
      }
      var cb := v.spc * SECTOR;
      var index: nat, offset: nat := position / cb, position % cb;
      ClusterOf(v, position);
      if index >= |clusters| || position >= fileSize {
        if index >= |clusters| {
          StartsMono(v, |clusters|, index);
        }
        return 0;
      }
      n := ReadClusters(buf, index, offset, Min(buf.Length, fileSize - position));
      FilledIsRead(FileBytes(v, clusters), fileSize, position, buf[..], n);
      position := position + n;
    }
  }

  /** A position is an offset in one cluster. */
  lemma ClusterOf(v: Volume, position: nat)
    requires v.Ok()
    ensures var cb := v.spc * SECTOR; position == Starts(v, position / cb) + position % cb && position % cb < cb
  {
    StartsAt(v, position / (v.spc * SECTOR));
    Quotient(position, v.spc * SECTOR);
  }
}
