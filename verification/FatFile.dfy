/** Reading a file through its cluster chain, and the position a file handle remembers. */
module FatFile {
  import opened Words
  import opened FatVolume

  // ----- what a file contains -----

  ghost predicate ClusterOnDisk(disk: seq<Sector>, g: Geometry, c: nat) {
    2 <= c < 0x1000_0000 && g.dataEntrySecter + (c - 1) * g.secPerCluster <= |disk|
  }

  /** A chain of clusters linked by the allocation table, every cluster and every link on the disk,
      whose byte positions fit the 32-bit position. */
  ghost predicate IsChain(disk: seq<Sector>, g: Geometry, chain: seq<nat>) {
    && |chain| > 0 && Before(g, |chain|) < TWO32
    && (forall k :: 0 <= k < |chain| ==> ClusterOnDisk(disk, g, chain[k]))
    && forall k: nat :: k + 1 < |chain| ==> Linked(disk, g, chain, k)
  }

  /** The table entry of cluster k of the chain holds cluster k + 1. */
  ghost predicate Linked(disk: seq<Sector>, g: Geometry, chain: seq<nat>, k: nat)
    requires k + 1 < |chain|
  {
    EntryOnDisk(disk, g, chain[k]) && TableEntry(disk, g, chain[k]) == chain[k + 1] && TypeOf(g, chain[k + 1]) == NextInFile
  }

  /** `count` sectors from `first` on, one after the other. */
  ghost function Sectors(disk: seq<Sector>, first: nat, count: nat): (s: seq<byte>)
    requires first + count <= |disk|
    ensures |s| == 512 * count
  {
    if count == 0 then [] else Sectors(disk, first, count - 1) + disk[first + count - 1]
  }

  ghost function ClusterBytes(disk: seq<Sector>, g: Geometry, c: nat): (s: seq<byte>)
    requires ClusterOnDisk(disk, g, c)
    ensures |s| == g.BytesPerCluster()
  {
    Sectors(disk, FirstSecter(g, c), g.secPerCluster)
  }

  function FirstSecter(g: Geometry, c: nat): int {
    (c - 2) * g.secPerCluster + g.dataEntrySecter
  }

  /** How many bytes of the file lie before cluster number k. */
  ghost function Before(g: Geometry, k: nat): nat {
    if k == 0 then 0 else Before(g, k - 1) + g.BytesPerCluster()
  }

  lemma {:induction false} BeforeIsProduct(g: Geometry, k: nat)
    ensures Before(g, k) == k * g.BytesPerCluster()
  {
    if k > 0 {
      BeforeIsProduct(g, k - 1);
      assert k * g.BytesPerCluster() == (k - 1) * g.BytesPerCluster() + g.BytesPerCluster();
    }
  }

  lemma {:induction false} BeforeGrows(g: Geometry, k: nat, m: nat)
    requires k <= m
    ensures Before(g, k) <= Before(g, m)
    ensures k < m ==> Before(g, k) + g.BytesPerCluster() <= Before(g, m)
    ensures g.Valid() ==> m - k <= Before(g, m) - Before(g, k)
  {
    if k < m {
      BeforeGrows(g, k, m - 1);
    }
  }

  lemma LeadsOn(g: Geometry, value: nat)
    requires 0 < value < if g.fat32 then 0xFFF_FFF0 else 0xFFF0
    ensures TypeOf(g, value) == NextInFile
  {
    Kinds(g, value);
  }

  /** Clusters whose table entries hold each the next one are a chain, when all of it is on the disk. */
  lemma ChainFollows(disk: seq<Sector>, g: Geometry, chain: seq<nat>)
    requires chain != [] && |chain| * g.BytesPerCluster() < 0x1_0000_0000
    requires forall k :: 0 <= k < |chain| ==> ClusterOnDisk(disk, g, chain[k])
    requires forall k: nat :: k + 1 < |chain| ==>
               EntryOnDisk(disk, g, chain[k]) && TableEntry(disk, g, chain[k]) == chain[k + 1]
    requires forall k :: 0 < k < |chain| ==> 0 < chain[k] < if g.fat32 then 0xFFF_FFF0 else 0xFFF0
    ensures IsChain(disk, g, chain)
  {
    BeforeIsProduct(g, |chain|);
    hide ClusterOnDisk, EntryOnDisk, TableEntry, TypeOf, Before, Counted;
    forall k: nat {:trigger Linked(disk, g, chain, k)} | k + 1 < |chain|
      ensures Linked(disk, g, chain, k)
    {
      LeadsOn(g, chain[k + 1]);
    }
  }

  /** The clusters of the chain, concatenated. */
  ghost function Content(disk: seq<Sector>, g: Geometry, chain: seq<nat>): (s: seq<byte>)
    requires forall k :: 0 <= k < |chain| ==> ClusterOnDisk(disk, g, chain[k])
    ensures |s| == Before(g, |chain|)
  {
    if chain == [] then [] else
      Content(disk, g, chain[..|chain| - 1]) + ClusterBytes(disk, g, chain[|chain| - 1])
  }

  /** The bytes of a file: its chain's content. */
  ghost function FileBytes(disk: seq<Sector>, g: Geometry, chain: seq<nat>): (s: seq<byte>)
    requires IsChain(disk, g, chain)
    ensures |s| == Before(g, |chain|)
  {
    Content(disk, g, chain)
  }

  lemma {:induction false} SectorsAt(disk: seq<Sector>, first: nat, count: nat, s: nat)
    requires first + count <= |disk| && s < count
    ensures Sectors(disk, first, count)[512 * s..512 * (s + 1)] == disk[first + s]
  {
    if s < count - 1 {
      SectorsAt(disk, first, count - 1, s);
    }
  }

  lemma {:induction false} ContentCluster(disk: seq<Sector>, g: Geometry, chain: seq<nat>, k: nat)
    requires k < |chain| && forall i :: 0 <= i < |chain| ==> ClusterOnDisk(disk, g, chain[i])
    ensures Before(g, k) + g.BytesPerCluster() <= Before(g, |chain|)
    ensures Content(disk, g, chain)[Before(g, k)..Before(g, k) + g.BytesPerCluster()] == ClusterBytes(disk, g, chain[k])
  {
    hide ClusterOnDisk, ClusterBytes;
    var n := |chain| - 1;
    if k < n {
      ContentCluster(disk, g, chain[..n], k);
      var at := Before(g, k);
      SliceOfFirst(Content(disk, g, chain[..n]), ClusterBytes(disk, g, chain[n]), at, at + g.BytesPerCluster());
    }
  }

  lemma SliceOfFirst<T>(s: seq<T>, t: seq<T>, a: nat, b: nat)
    requires a <= b <= |s|
    ensures (s + t)[a..b] == s[a..b]
  {
  }

  lemma SliceOfSlice<T>(s: seq<T>, a: nat, b: nat, c: nat, d: nat)
    requires c <= d <= b - a && a <= b <= |s|
    ensures s[a..b][c..d] == s[a + c..a + d]
  {
    var piece, direct := s[a..b][c..d], s[a + c..a + d];
    assert |piece| == |direct| && forall i :: 0 <= i < |piece| ==> piece[i] == s[a + c + i] == direct[i];
  }

  /** A piece of a sector of a cluster, seen from the whole file. */
  lemma PieceOfPiece(all: seq<byte>, a: nat, cluster: seq<byte>, s: nat, sector: seq<byte>, o: nat, count: nat)
    requires a + |cluster| <= |all| && all[a..a + |cluster|] == cluster
    requires 512 * (s + 1) <= |cluster| && cluster[512 * s..512 * (s + 1)] == sector
    requires o + count <= 512
    ensures all[a + 512 * s + o..a + 512 * s + o + count] == sector[o..o + count]
  {
    SliceOfSlice(all, a, a + |cluster|, 512 * s, 512 * (s + 1));
    SliceOfSlice(all, a + 512 * s, a + 512 * (s + 1), o, o + count);
  }

  lemma FirstSecterOnDisk(disk: seq<Sector>, g: Geometry, c: nat)
    requires ClusterOnDisk(disk, g, c)
    ensures 0 <= FirstSecter(g, c) && FirstSecter(g, c) + g.secPerCluster <= |disk|
  {
    assert FirstSecter(g, c) + g.secPerCluster == g.dataEntrySecter + (c - 1) * g.secPerCluster;
  }

  /** Bytes o..o+count of sector s of cluster k stand at one place of the content. */
  lemma ContentPiece(disk: seq<Sector>, g: Geometry, chain: seq<nat>, k: nat, s: nat, o: nat, count: nat)
    requires k < |chain| && forall i :: 0 <= i < |chain| ==> ClusterOnDisk(disk, g, chain[i])
    requires s < g.secPerCluster && o + count <= 512
    ensures 0 <= FirstSecter(g, chain[k]) + s < |disk|
    ensures var at := Before(g, k) + 512 * s + o;
            && at + count <= Before(g, |chain|)
            && Content(disk, g, chain)[at..at + count] == disk[FirstSecter(g, chain[k]) + s][o..o + count]
  {
    ContentCluster(disk, g, chain, k);
    FirstSecterOnDisk(disk, g, chain[k]);
    SectorsAt(disk, FirstSecter(g, chain[k]), g.secPerCluster, s);
    PieceOfPiece(Content(disk, g, chain), Before(g, k), ClusterBytes(disk, g, chain[k]), s,
                 disk[FirstSecter(g, chain[k]) + s], o, count);
  }

  // ----- where the clusters lie -----

  /** Cluster 2 begins at the first data sector, every other one where the cluster before it ends. */
  lemma ClustersInRow(g: Geometry, c: nat)
    requires c >= 2
    ensures FirstSecter(g, 2) == g.dataEntrySecter
    ensures FirstSecter(g, c + 1) == FirstSecter(g, c) + g.secPerCluster
  {
  }

  /** Different clusters share no sector. */
  lemma ClustersApart(g: Geometry, c: nat, d: nat, s: nat, t: nat)
    requires c >= 2 && d >= 2 && s < g.secPerCluster && t < g.secPerCluster
    requires FirstSecter(g, c) + s == FirstSecter(g, d) + t
    ensures c == d && s == t
  {
    if c < d {
      Apart(g, c, d);
    }
    if d < c {
      Apart(g, d, c);
    }
  }

  lemma Apart(g: Geometry, c: nat, d: nat)
    requires 2 <= c < d
    ensures FirstSecter(g, c) + g.secPerCluster <= FirstSecter(g, d)
  {
    var n: nat := d - c - 1;
    assert FirstSecter(g, d) == FirstSecter(g, c) + g.secPerCluster + n * g.secPerCluster;
  }

  /** Byte o of sector s of cluster number k of the file. */
  lemma FileByte(disk: seq<Sector>, g: Geometry, chain: seq<nat>, k: nat, s: nat, o: nat, secter: int, at: nat)
    requires IsChain(disk, g, chain) && k < |chain| && s < g.secPerCluster && o < 512
    requires secter == g.dataEntrySecter + (chain[k] - 2) * g.secPerCluster + s
    requires at == k * (512 * g.secPerCluster) + 512 * s + o
    ensures at < |FileBytes(disk, g, chain)| && 0 <= secter < |disk|
    ensures FileBytes(disk, g, chain)[at] == disk[secter][o]
  {
    hide ClusterOnDisk;
    BeforeIsProduct(g, k);
    assert secter == FirstSecter(g, chain[k]) + s;
    hide FirstSecter, Content;
    ContentPiece(disk, g, chain, k, s, o, 1);
    var content := Content(disk, g, chain);
    assert content[at..at + 1][0] == disk[secter][o..o + 1][0];
  }

  // ----- writing a sector -----

  /** Sector i is one of the cluster's. */
  predicate InCluster(g: Geometry, c: nat, i: nat) {
    FirstSecter(g, c) <= i < FirstSecter(g, c) + g.secPerCluster
  }

  /** Sector i belongs to no cluster of the chain. */
  ghost predicate Outside(g: Geometry, chain: seq<nat>, i: nat) {
    forall k :: 0 <= k < |chain| ==> !InCluster(g, chain[k], i)
  }

  ghost predicate AllOnDisk(disk: seq<Sector>, g: Geometry, chain: seq<nat>) {
    forall k :: 0 <= k < |chain| ==> ClusterOnDisk(disk, g, chain[k])
  }

  lemma StaysOnDisk(disk: seq<Sector>, after: seq<Sector>, g: Geometry, chain: seq<nat>)
    requires |disk| == |after| && AllOnDisk(disk, g, chain)
    ensures AllOnDisk(after, g, chain)
  {
  }

  function Patched(all: seq<byte>, at: nat, bytes: seq<byte>): (r: seq<byte>)
    requires at + |bytes| <= |all|
    ensures |r| == |all|
  {
    all[..at] + bytes + all[at + |bytes|..]
  }

  lemma {:induction false} SectorsKept(disk: seq<Sector>, first: nat, count: nat, i: nat, bytes: Sector)
    requires first + count <= |disk| && i < |disk| && !(first <= i < first + count)
    ensures Sectors(disk[i := bytes], first, count) == Sectors(disk, first, count)
  {
    if count > 0 {
      SectorsKept(disk, first, count - 1, i, bytes);
    }
  }

  lemma {:induction false} SectorsPatched(disk: seq<Sector>, first: nat, count: nat, s: nat, bytes: Sector)
    requires first + count <= |disk| && s < count
    ensures Sectors(disk[first + s := bytes], first, count) == Patched(Sectors(disk, first, count), 512 * s, bytes)
  {
    var front, last := Sectors(disk, first, count - 1), disk[first + count - 1];
    if s == count - 1 {
      SectorsKept(disk, first, count - 1, first + s, bytes);
    } else {
      SectorsPatched(disk, first, count - 1, s, bytes);
      PatchedFront(front, last, 512 * s, bytes);
    }
  }

  lemma PatchedFront(front: seq<byte>, last: seq<byte>, at: nat, bytes: seq<byte>)
    requires at + |bytes| <= |front|
    ensures Patched(front + last, at, bytes) == Patched(front, at, bytes) + last
  {
  }

  lemma PatchedBack(front: seq<byte>, last: seq<byte>, at: nat, bytes: seq<byte>)
    requires at + |bytes| <= |last|
    ensures Patched(front + last, |front| + at, bytes) == front + Patched(last, at, bytes)
  {
  }

  lemma {:induction false} ContentKept(disk: seq<Sector>, after: seq<Sector>, g: Geometry, chain: seq<nat>, i: nat,
                                       bytes: Sector)
    requires AllOnDisk(disk, g, chain) && AllOnDisk(after, g, chain)
    requires i < |disk| && after == disk[i := bytes] && Outside(g, chain, i)
    ensures Content(after, g, chain) == Content(disk, g, chain)
  {
    hide InCluster, ClusterOnDisk, ClusterBytes;
    if chain != [] {
      var n := |chain| - 1;
      ContentKept(disk, after, g, chain[..n], i, bytes);
      ClusterKept(disk, after, g, chain[n], i, bytes);
    }
  }

  lemma ClusterKept(disk: seq<Sector>, after: seq<Sector>, g: Geometry, c: nat, i: nat, bytes: Sector)
    requires ClusterOnDisk(disk, g, c) && ClusterOnDisk(after, g, c)
    requires i < |disk| && after == disk[i := bytes] && !InCluster(g, c, i)
    ensures ClusterBytes(after, g, c) == ClusterBytes(disk, g, c)
  {
    FirstSecterOnDisk(disk, g, c);
    hide FirstSecter;
    SectorsKept(disk, FirstSecter(g, c), g.secPerCluster, i, bytes);
  }

  lemma ClusterPatched(disk: seq<Sector>, after: seq<Sector>, g: Geometry, c: nat, s: nat, bytes: Sector)
    requires ClusterOnDisk(disk, g, c) && ClusterOnDisk(after, g, c) && s < g.secPerCluster
    requires 0 <= FirstSecter(g, c) + s < |disk| && after == disk[FirstSecter(g, c) + s := bytes]
    ensures ClusterBytes(after, g, c) == Patched(ClusterBytes(disk, g, c), 512 * s, bytes)
  {
    FirstSecterOnDisk(disk, g, c);
    hide FirstSecter, Patched;
    SectorsPatched(disk, FirstSecter(g, c), g.secPerCluster, s, bytes);
  }

  /** No cluster twice. */
  ghost predicate Distinct(chain: seq<nat>) {
    forall i, k :: 0 <= i < k < |chain| ==> chain[i] != chain[k]
  }

  /** A sector of one cluster is in no other one. */
  lemma InOneCluster(disk: seq<Sector>, g: Geometry, c: nat, d: nat, i: nat)
    requires ClusterOnDisk(disk, g, c) && ClusterOnDisk(disk, g, d) && c != d && InCluster(g, c, i)
    ensures !InCluster(g, d, i)
  {
    hide FirstSecter;
    if InCluster(g, d, i) {
      ClustersApart(g, c, d, i - FirstSecter(g, c), i - FirstSecter(g, d));
    }
  }

  /** The chain lies on the disk before and after sector s of cluster c has been written. */
  ghost predicate Written(disk: seq<Sector>, after: seq<Sector>, g: Geometry, chain: seq<nat>, c: nat, s: nat, bytes: Sector) {
    && AllOnDisk(disk, g, chain) && AllOnDisk(after, g, chain) && Distinct(chain) && c in chain && s < g.secPerCluster
    && 0 <= FirstSecter(g, c) + s < |disk| && after == disk[FirstSecter(g, c) + s := bytes]
  }

  /** The clusters in front of the last one stay when a sector of that is written, and it changes. */
  lemma LastPatched(disk: seq<Sector>, after: seq<Sector>, g: Geometry, chain: seq<nat>, s: nat, bytes: Sector)
    requires chain != [] && Written(disk, after, g, chain, chain[|chain| - 1], s, bytes)
    ensures Content(after, g, chain) == Patched(Content(disk, g, chain), Before(g, |chain| - 1) + 512 * s, bytes)
  {
    hide FirstSecter, Patched, Sectors, ClusterOnDisk, ClusterBytes;
    var n := |chain| - 1;
    var i := FirstSecter(g, chain[n]) + s;
    forall j | 0 <= j < n
      ensures !InCluster(g, chain[j], i)
    {
      InOneCluster(disk, g, chain[n], chain[j], i);
    }
    ContentKept(disk, after, g, chain[..n], i, bytes);
    ClusterPatched(disk, after, g, chain[n], s, bytes);
    PatchedBack(Content(disk, g, chain[..n]), ClusterBytes(disk, g, chain[n]), 512 * s, bytes);
  }

  /** The last cluster stays when a sector of an earlier one is written. */
  lemma LastKept(disk: seq<Sector>, after: seq<Sector>, g: Geometry, chain: seq<nat>, k: nat, s: nat, bytes: Sector)
    requires k < |chain| - 1 && Written(disk, after, g, chain, chain[k], s, bytes)
    ensures Written(disk, after, g, chain[..|chain| - 1], chain[k], s, bytes)
    ensures ClusterBytes(after, g, chain[|chain| - 1]) == ClusterBytes(disk, g, chain[|chain| - 1])
  {
    hide FirstSecter, ClusterOnDisk, ClusterBytes;
    var n := |chain| - 1;
    assert chain[..n][k] == chain[k];
    InOneCluster(disk, g, chain[k], chain[n], FirstSecter(g, chain[k]) + s);
    ClusterKept(disk, after, g, chain[n], FirstSecter(g, chain[k]) + s, bytes);
  }

  lemma {:induction false} ContentPatched(disk: seq<Sector>, after: seq<Sector>, g: Geometry, chain: seq<nat>, k: nat, s: nat,
                                          bytes: Sector)
    requires k < |chain| && Written(disk, after, g, chain, chain[k], s, bytes)
    ensures Before(g, k) + 512 * s + 512 <= Before(g, |chain|)
    ensures Content(after, g, chain) == Patched(Content(disk, g, chain), Before(g, k) + 512 * s, bytes)
  {
    hide FirstSecter, Patched, ClusterOnDisk, ClusterBytes, Distinct;
    BeforeGrows(g, k, |chain|);
    var n := |chain| - 1;
    if k == n {
      LastPatched(disk, after, g, chain, s, bytes);
    } else {
      LastKept(disk, after, g, chain, k, s, bytes);
      ContentPatched(disk, after, g, chain[..n], k, s, bytes);
      PatchedFront(Content(disk, g, chain[..n]), ClusterBytes(disk, g, chain[n]), Before(g, k) + 512 * s, bytes);
    }
  }

  /** The links of the chain stand in front of the data. */
  ghost predicate TableInFront(g: Geometry, chain: seq<nat>) {
    forall k :: 0 <= k < |chain| - 1 ==>
      g.fatEntrySecter + (g.AddressOf(chain[k]) + g.EntrySize() - 1) / 512 < g.dataEntrySecter
  }

  /** Writing a data sector leaves a chain a chain. */
  lemma StillChain(disk: seq<Sector>, g: Geometry, chain: seq<nat>, i: nat, bytes: Sector)
    requires IsChain(disk, g, chain) && TableInFront(g, chain) && g.dataEntrySecter <= i < |disk|
    ensures IsChain(disk[i := bytes], g, chain)
  {
    var after := disk[i := bytes];
    StaysOnDisk(disk, after, g, chain);
    hide ClusterOnDisk, EntryOnDisk, TableEntry, TypeOf;
    forall k: nat {:trigger Linked(after, g, chain, k)} | k + 1 < |chain|
      ensures Linked(after, g, chain, k)
    {
      assert Linked(disk, g, chain, k);
      LinkKept(disk, g, chain[k], i, bytes);
    }
  }

  lemma LinkKept(disk: seq<Sector>, g: Geometry, c: nat, i: nat, bytes: Sector)
    requires EntryOnDisk(disk, g, c) && i < |disk|
    requires g.fatEntrySecter + (g.AddressOf(c) + g.EntrySize() - 1) / 512 < i
    ensures EntryOnDisk(disk[i := bytes], g, c)
    ensures TableEntry(disk[i := bytes], g, c) == TableEntry(disk, g, c)
  {
  }

  /** Writing a sector that belongs to no cluster of the file leaves the file as it was. */
  lemma WriteElsewhere(disk: seq<Sector>, g: Geometry, chain: seq<nat>, i: nat, bytes: Sector)
    requires IsChain(disk, g, chain) && i < |disk| && IsChain(disk[i := bytes], g, chain)
    requires Outside(g, chain, i)
    ensures FileBytes(disk[i := bytes], g, chain) == FileBytes(disk, g, chain)
  {
    hide Outside;
    ContentKept(disk, disk[i := bytes], g, chain, i, bytes);
  }

  /** Writing sector s of cluster number k changes exactly its 512 bytes of the file. */
  lemma WriteInFile(disk: seq<Sector>, g: Geometry, chain: seq<nat>, k: nat, s: nat, bytes: Sector, secter: int, at: nat)
    requires IsChain(disk, g, chain) && Distinct(chain) && TableInFront(g, chain) && k < |chain| && s < g.secPerCluster
    requires secter == g.dataEntrySecter + (chain[k] - 2) * g.secPerCluster + s
    requires at == k * (512 * g.secPerCluster) + 512 * s
    ensures 0 <= secter < |disk| && IsChain(disk[secter := bytes], g, chain) && at + 512 <= |FileBytes(disk, g, chain)|
    ensures FileBytes(disk[secter := bytes], g, chain) == Patched(FileBytes(disk, g, chain), at, bytes)
  {
    hide Patched, Distinct, TableInFront;
    assert secter == FirstSecter(g, chain[k]) + s;
    FirstSecterOnDisk(disk, g, chain[k]);
    BeforeIsProduct(g, k);
    Upward(chain[k] - 2, g.secPerCluster);
    hide FirstSecter, Content;
    StillChain(disk, g, chain, secter, bytes);
    ContentPatched(disk, disk[secter := bytes], g, chain, k, s, bytes);
  }

  lemma Upward(a: nat, b: nat)
    ensures a * b >= 0
  {
  }

  /** The cluster number a position falls in, with the shifts for the common cluster sizes. */
  function ClusterSeqOf(bytesPerCluster: nat, pos: nat): int
    requires bytesPerCluster > 0
  {
    if bytesPerCluster == 32768 then pos / 32768        // Pos >> 15
    else if bytesPerCluster == 16384 then pos / 16384   // Pos >> 14
    else if bytesPerCluster == 2048 then pos / 2048     // Pos >> 11
    else pos / bytesPerCluster
  }

  /** The offset of a position from the start of cluster number seq, with the same shifts. */
  function OffsetFrom(bytesPerCluster: nat, seqNo: nat, pos: nat): nat {
    if bytesPerCluster == 32768 then U32(pos - U32(seqNo * 32768))
    else if bytesPerCluster == 16384 then U32(pos - U32(seqNo * 16384))
    else if bytesPerCluster == 2048 then U32(pos - U32(seqNo * 2048))
    else U32(pos - U32(seqNo * bytesPerCluster))
  }

  /** Every path computes the quotient. */
  lemma ClusterSeqIsQuotient(bytesPerCluster: nat, pos: nat)
    requires bytesPerCluster > 0
    ensures var q := ClusterSeqOf(bytesPerCluster, pos);
            q * bytesPerCluster <= pos < q * bytesPerCluster + bytesPerCluster
  {
    if bytesPerCluster !in {32768, 16384, 2048} {
      assert pos == bytesPerCluster * (pos / bytesPerCluster) + pos % bytesPerCluster;
    }
  }

  /** Every path computes the 32-bit difference. */
  lemma OffsetIsDifference(bytesPerCluster: nat, seqNo: nat, pos: nat)
    ensures OffsetFrom(bytesPerCluster, seqNo, pos) == U32(pos - seqNo * bytesPerCluster)
  {
    U32Difference(pos, seqNo * bytesPerCluster);
  }

  /** The sector number the code computes for a cluster, with its shift paths. */
  function PhysicalSecter(g: Geometry, cluster: nat): nat {
    if g.secPerCluster == 32 then U32(U32(U32(cluster - 2) * 32) + g.dataEntrySecter)        // << 5
    else if g.secPerCluster == 64 then U32(U32(U32(cluster - 2) * 64) + g.dataEntrySecter)   // << 6
    else U32(U32(U32(cluster - 2) * g.secPerCluster) + g.dataEntrySecter)
  }

  lemma PhysicalSecterIsFirst(disk: seq<Sector>, g: Geometry, cluster: nat)
    requires g.Valid() && |disk| <= NO_SECTOR && ClusterOnDisk(disk, g, cluster)
    ensures PhysicalSecter(g, cluster) == FirstSecter(g, cluster)
    ensures FirstSecter(g, cluster) + g.secPerCluster <= |disk|
  {
    hide U32;
    FirstSecterOnDisk(disk, g, cluster);
    NoWrap(cluster - 2, (cluster - 2) * g.secPerCluster, g.dataEntrySecter);
  }

  lemma NoWrap(c: nat, p: nat, d: nat)
    requires c < TWO32 && p + d < TWO32
    ensures U32(c) == c && U32(p) == p && U32(p + d) == p + d
  {
  }

  /** A position past the end of cluster k but inside the first n clusters: k is not the last of them. */
  lemma NotLast(g: Geometry, k: nat, n: nat, pos: nat)
    requires k < n && Before(g, k) + g.BytesPerCluster() <= pos < Before(g, n)
    ensures k + 1 < n
    ensures Before(g, k + 1) == Before(g, k) + g.BytesPerCluster()
  {
    assert Before(g, k + 1) == Before(g, k) + g.BytesPerCluster();
  }

  /** The table leads from cluster k of a chain to cluster k + 1. */
  lemma NextInChain(disk: seq<Sector>, g: Geometry, chain: seq<nat>, k: nat)
    requires g.Valid() && IsChain(disk, g, chain) && k + 1 < |chain|
    ensures k + 1 < TWO32
    ensures EntryOnDisk(disk, g, chain[k]) && Successor(g, TableEntry(disk, g, chain[k])) == chain[k + 1] != 0
  {
    assert Linked(disk, g, chain, k);
    BeforeGrows(g, 0, |chain|);
  }

  /** The first n bytes of the buffer are the bytes of the content from position `from` on. */
  ghost predicate Filled(content: seq<byte>, buf: array<byte>, n: nat, from: nat)
    reads buf
  {
    n <= buf.Length && from + n <= |content| && buf[..n] == content[from..from + n]
  }

  /** memcpy into the request buffer; when the bytes copied are the file's next ones, the buffer fills further. */
  method CopyInto(buf: array<byte>, at: nat, src: array<byte>, pos: nat, count: nat,
                  ghost content: seq<byte>, ghost from: nat, ghost n: nat)
    requires buf != src && at + count <= n <= buf.Length && pos + count <= src.Length
    modifies buf
    ensures buf[n..] == old(buf[n..])
    ensures old(Filled(content, buf, at, from)) && from + at + count <= |content|
            && content[from + at..from + at + count] == src[pos..pos + count]
            ==> Filled(content, buf, at + count, from)
  {
    Memcpy(buf, at, src, pos, count);
    if old(Filled(content, buf, at, from)) && from + at + count <= |content|
       && content[from + at..from + at + count] == src[pos..pos + count] {
      assert buf[..at + count] == buf[..at] + buf[at..at + count];
      assert content[from..from + (at + count)] == content[from..from + at] + content[from + at..from + at + count];
    }
  }

  /** Sector `secter` of the disk holds the content's bytes from `at` on. */
  ghost predicate SecterAt(disk: seq<Sector>, secter: nat, content: seq<byte>, at: nat) {
    secter < |disk| && at + 512 <= |content| && content[at..at + 512] == disk[secter]
  }

  ghost predicate SecterInCluster(disk: seq<Sector>, first: nat, s: nat, content: seq<byte>, base: nat) {
    SecterAt(disk, first + s, content, base + 512 * s)
  }

  /** `count` sectors from `first` on hold the content's bytes from `base` on. */
  ghost predicate ClusterAt(disk: seq<Sector>, first: nat, count: nat, content: seq<byte>, base: nat) {
    forall s: nat :: s < count ==> SecterInCluster(disk, first, s, content, base)
  }

  /** Read one sector and copy what is wanted of it, from its byte pos on. */
  method CopySecter(vol: Volume, physicalSecter: nat, pos: nat, buf: array<byte>, nReadCount: nat, n: nat,
                    ghost content: seq<byte>, ghost from: nat, ghost at: nat)
    returns (ok: bool, nCopyCount: nat)
    requires vol.Valid() && physicalSecter < TWO32 && pos < 512 && nReadCount < n <= buf.Length
    requires buf != vol.secterData
    modifies vol`secterIndex, vol`faults, vol.secterData, buf
    ensures vol.Valid() && vol.faults >= old(vol.faults) && 0 < nCopyCount <= n - nReadCount
    ensures !ok ==> vol.faults > old(vol.faults)
    ensures nCopyCount == if 512 - pos > n - nReadCount then n - nReadCount else 512 - pos
    ensures buf[n..] == old(buf[n..])
    ensures ok && old(Filled(content, buf, nReadCount, from)) && SecterAt(vol.disk, physicalSecter, content, at)
            && from + nReadCount == at + pos
            ==> Filled(content, buf, nReadCount + nCopyCount, from)
  {
    nCopyCount := 512;
    if pos != 0 {
      nCopyCount := nCopyCount - pos;
    }
    if nCopyCount > n - nReadCount {
      nCopyCount := n - nReadCount;
    }
    ok := vol.ReadSecter(physicalSecter);
    if ok {
      if SecterAt(vol.disk, physicalSecter, content, at) {
        SliceOfSlice(content, at, at + 512, pos, pos + nCopyCount);
      }
      if nCopyCount == 512 {
        CopyInto(buf, nReadCount, vol.secterData, 0, 512, content, from, n);
      } else {
        CopyInto(buf, nReadCount, vol.secterData, pos, nCopyCount, content, from, n);
      }
    }
  }

  /** The sector loop of Fat_FileRead over one cluster: skip whole sectors while pos covers them, then copy. */
  method ReadFromCluster(vol: Volume, first: nat, start: nat, buf: array<byte>, done: nat, n: nat,
                         ghost content: seq<byte>, ghost from: nat, ghost base: nat)
    returns (ok: bool, pos: nat, nReadCount: nat)
    requires vol.Valid() && first < TWO32 && start < 512 * vol.geo.secPerCluster && done < n <= buf.Length
    requires buf != vol.secterData
    modifies vol`secterIndex, vol`faults, vol.secterData, buf
    ensures vol.Valid() && vol.faults >= old(vol.faults) && done <= nReadCount <= n
    ensures ok ==> pos == 0 && done < nReadCount
    ensures buf[n..] == old(buf[n..])
    ensures old(Filled(content, buf, done, from)) && from + done == base + start && vol.faults == old(vol.faults)
            && ClusterAt(vol.disk, first, vol.geo.secPerCluster, content, base)
            ==> ok && Filled(content, buf, nReadCount, from)
                && from + nReadCount <= base + 512 * vol.geo.secPerCluster
                && (nReadCount < n ==> from + nReadCount == base + 512 * vol.geo.secPerCluster)
  {
    ok, pos, nReadCount := true, start, done;
    ghost var tracked := Filled(content, buf, done, from) && from + done == base + start
                         && ClusterAt(vol.disk, first, vol.geo.secPerCluster, content, base);
    var physicalSecter: nat := first;
    var s: nat := 0;
    while s < vol.geo.secPerCluster && nReadCount < n && ok
      invariant s <= vol.geo.secPerCluster && vol.Valid() && vol.faults >= old(vol.faults)
      invariant done <= nReadCount <= n && physicalSecter < TWO32
      invariant ok ==> if nReadCount == done then pos + 512 * s == start else pos == 0
      invariant buf[n..] == old(buf[n..])
      invariant tracked ==> physicalSecter == first + s
      invariant tracked && vol.faults == old(vol.faults) ==> ok && Filled(content, buf, nReadCount, from)
      invariant tracked && vol.faults == old(vol.faults) && nReadCount > done ==> from + nReadCount <= base + 512 * s
      invariant tracked && vol.faults == old(vol.faults) && nReadCount < n ==> from + nReadCount == base + 512 * s + pos
    {
      assert tracked ==> SecterInCluster(vol.disk, first, s, content, base);
      if pos >= 512 {
        pos := pos - 512;
      } else {
        var nCopyCount;
        ok, nCopyCount := CopySecter(vol, physicalSecter, pos, buf, nReadCount, n, content, from, base + 512 * s);
        if ok {
          nReadCount := nReadCount + nCopyCount;
          if pos > 0 {
            pos := 0;
          }
        }
      }
      physicalSecter := U32(physicalSecter + 1);
      s := s + 1;
    }
  }

  /** On the disk, the sectors from the computed number on hold cluster k of the file. */
  lemma ClusterLaidOut(disk: seq<Sector>, g: Geometry, chain: seq<nat>, k: nat)
    requires g.Valid() && |disk| <= NO_SECTOR && IsChain(disk, g, chain) && k < |chain|
    ensures ClusterAt(disk, PhysicalSecter(g, chain[k]), g.secPerCluster, FileBytes(disk, g, chain), Before(g, k))
  {
    PhysicalSecterIsFirst(disk, g, chain[k]);
    forall s: nat | s < g.secPerCluster
      ensures SecterInCluster(disk, PhysicalSecter(g, chain[k]), s, FileBytes(disk, g, chain), Before(g, k))
    {
      ContentPiece(disk, g, chain, k, s, 0, 512);
    }
  }

  datatype SeekFrom = FromBegin | FromCurrent | FromEnd | FromElsewhere

  class FileHandle {
    const vol: Volume
    const firstLogicalCluster: nat
    const fileSize: nat
    var isOpened: bool
    var seekPos: nat
    var cluster: nat
    var clusterSeq: nat

    ghost predicate Shaped()
      reads this
    {
      && seekPos < TWO32 && cluster < TWO32 && clusterSeq < TWO32
      && firstLogicalCluster < TWO16 && fileSize < TWO32
    }

    /** The handle's cluster is number clusterSeq of the chain. */
    ghost predicate AtCluster(chain: seq<nat>)
      reads this, vol
    {
      IsChain(vol.disk, vol.geo, chain) && clusterSeq < |chain| && cluster == chain[clusterSeq]
    }

    /** ... and does not begin beyond the position: the invariant of an open handle. */
    ghost predicate Synced(chain: seq<nat>)
      reads this, vol
    {
      AtCluster(chain) && Before(vol.geo, clusterSeq) <= seekPos
    }

    /** The next n bytes lie inside the chain, and so does the position itself. */
    ghost predicate Inside(chain: seq<nat>, n: nat)
      reads this, vol
    {
      seekPos < Before(vol.geo, |chain|) && seekPos + n <= Before(vol.geo, |chain|)
    }

    /** The handle Fat_FileOpen makes for a directory entry. */
    constructor (vol: Volume, firstLogicalCluster: nat, fileSize: nat)
      requires firstLogicalCluster < TWO16 && fileSize < TWO32
      ensures this.vol == vol && this.firstLogicalCluster == firstLogicalCluster && this.fileSize == fileSize
      ensures Shaped() && isOpened && seekPos == 0
      ensures forall chain :: IsChain(vol.disk, vol.geo, chain) && chain[0] == firstLogicalCluster ==> Synced(chain)
    {
      this.vol := vol;
      this.firstLogicalCluster := firstLogicalCluster;
      this.fileSize := fileSize;
      isOpened := true;
      seekPos := 0;
      cluster := firstLogicalCluster;
      clusterSeq := 0;
    }

    method FileSeek(from: SeekFrom, offset: int) returns (ok: bool)
      requires Shaped() && -0x8000_0000 <= offset < 0x8000_0000
      modifies `seekPos, `cluster, `clusterSeq
      ensures Shaped()
      ensures ok <==> isOpened && !from.FromElsewhere?
      ensures !isOpened ==> unchanged(this)
      ensures isOpened ==> seekPos == match from
                case FromBegin => U32(offset)
                case FromCurrent => U32(old(seekPos) + offset)
                case FromEnd => U32(fileSize + offset)
                case FromElsewhere => old(seekPos)
      ensures isOpened ==> forall chain ::
                IsChain(vol.disk, vol.geo, chain) && chain[0] == firstLogicalCluster ==> Synced(chain)
    {
      if !isOpened {
        return false;
      }
      ok := true;
      match from {
        case FromBegin => seekPos := U32(offset);
        case FromCurrent => seekPos := U32(seekPos + offset);
        case FromEnd => seekPos := U32(fileSize + offset);
        case FromElsewhere => ok := false;
      }
      cluster := firstLogicalCluster;
      clusterSeq := 0;
    }

    /** Go on to the next cluster; on failure only the count moves. */
    method StepCluster(ghost chain: seq<nat>) returns (ok: bool)
      requires Shaped() && vol.Valid()
      modifies `cluster, `clusterSeq, vol`secterIndex, vol`faults, vol.secterData
      ensures Shaped() && vol.Valid() && vol.faults >= old(vol.faults)
      ensures clusterSeq == U32(old(clusterSeq) + 1) && (!ok ==> cluster == old(cluster))
      ensures old(AtCluster(chain) && clusterSeq + 1 < |chain|) && vol.faults == old(vol.faults)
              ==> ok && clusterSeq == old(clusterSeq) + 1 && AtCluster(chain)
    {
      if AtCluster(chain) && clusterSeq + 1 < |chain| {
        NextInChain(vol.disk, vol.geo, chain, clusterSeq);
      }
      var nextCluster := vol.NextCluster(cluster);
      ok := nextCluster != 0;
      if ok {
        cluster := nextCluster;
      }
      clusterSeq := U32(clusterSeq + 1);
    }

    /** First loop of Fat_FileRead: walk the chain to the cluster holding the position. */
    method SkipClusters(start: nat, ghost chain: seq<nat>) returns (ok: bool, pos: nat)
      requires Shaped() && vol.Valid() && start < TWO32
      modifies `cluster, `clusterSeq, vol`secterIndex, vol`faults, vol.secterData
      ensures Shaped() && vol.Valid() && vol.faults >= old(vol.faults)
      ensures ok ==> pos < vol.geo.BytesPerCluster()
      ensures old(Synced(chain) && Inside(chain, 0)) && start == seekPos - Before(vol.geo, old(clusterSeq))
              && vol.faults == old(vol.faults)
              ==> ok && Synced(chain) && seekPos == Before(vol.geo, clusterSeq) + pos
    {
      ok, pos := true, start;
      ghost var tracked := Synced(chain) && Inside(chain, 0) && start == seekPos - Before(vol.geo, clusterSeq);
      while pos >= vol.geo.BytesPerCluster() && ok
        invariant Shaped() && vol.Valid() && vol.faults >= old(vol.faults) && pos < TWO32
        invariant tracked && vol.faults == old(vol.faults)
                  ==> ok && Synced(chain) && seekPos == Before(vol.geo, clusterSeq) + pos
        decreases pos
      {
        if tracked && vol.faults == old(vol.faults) {
          NotLast(vol.geo, clusterSeq, |chain|, seekPos);
        }
        ok := StepCluster(chain);
        pos := pos - vol.geo.BytesPerCluster();
      }
    }

    /** Bring the handle to the cluster that holds the position. */
    method MoveToCluster(ghost chain: seq<nat>) returns (ok: bool, pos: nat)
      requires Shaped() && vol.Valid()
      modifies `cluster, `clusterSeq, vol`secterIndex, vol`faults, vol.secterData
      ensures Shaped() && vol.Valid() && vol.faults >= old(vol.faults)
      ensures ok ==> pos < vol.geo.BytesPerCluster()
      ensures old(Synced(chain) && Inside(chain, 0)) && vol.faults == old(vol.faults)
              ==> ok && Synced(chain) && seekPos == Before(vol.geo, clusterSeq) + pos
    {
      var bytesPerCluster := vol.geo.BytesPerCluster();
      ClusterSeqIsQuotient(bytesPerCluster, seekPos);
      OffsetIsDifference(bytesPerCluster, clusterSeq, seekPos);
      BeforeIsProduct(vol.geo, clusterSeq);
      var nClusterSeq := ClusterSeqOf(bytesPerCluster, seekPos);
      ok, pos := true, OffsetFrom(bytesPerCluster, clusterSeq, seekPos);
      if nClusterSeq != clusterSeq {
        ok, pos := SkipClusters(pos, chain);
      }
    }

    /** Bytes from..from+done of the file are in the buffer, and unless that is all, the next one stands pos
        bytes into the handle's cluster. */
    ghost predicate OnTrack(chain: seq<nat>, content: seq<byte>, buf: array<byte>, done: nat, n: nat, from: nat, pos: nat)
      reads this, vol, buf
    {
      && AtCluster(chain) && content == FileBytes(vol.disk, vol.geo, chain)
      && Filled(content, buf, done, from) && from + n <= Before(vol.geo, |chain|)
      && Before(vol.geo, clusterSeq) <= from + done <= Before(vol.geo, clusterSeq) + vol.geo.BytesPerCluster()
      && (done < n ==> from + done == Before(vol.geo, clusterSeq) + pos)
    }

    /** One pass of the reading loop: the sectors of the handle's cluster, then the step to the next one. */
    method ReadCluster(buf: array<byte>, done: nat, n: nat, start: nat, ghost chain: seq<nat>, ghost content: seq<byte>,
                       ghost from: nat)
      returns (ok: bool, pos: nat, nReadCount: nat)
      requires Shaped() && vol.Valid() && done < n <= buf.Length && buf != vol.secterData
      requires start < vol.geo.BytesPerCluster()
      modifies `cluster, `clusterSeq, vol`secterIndex, vol`faults, vol.secterData, buf
      ensures Shaped() && vol.Valid() && vol.faults >= old(vol.faults) && nReadCount <= n
      ensures ok ==> done < nReadCount && pos == 0
      ensures buf[n..] == old(buf[n..])
      ensures old(OnTrack(chain, content, buf, done, n, from, start)) && vol.faults == old(vol.faults)
              ==> ok && OnTrack(chain, content, buf, nReadCount, n, from, pos)
    {
      ghost var tracked := OnTrack(chain, content, buf, done, n, from, start);
      if tracked {
        ClusterLaidOut(vol.disk, vol.geo, chain, clusterSeq);
      }
      ok, pos, nReadCount := ReadFromCluster(vol, PhysicalSecter(vol.geo, cluster), start, buf, done, n, content, from,
                                             Before(vol.geo, clusterSeq));
      if nReadCount < n {
        if tracked && vol.faults == old(vol.faults) {
          NotLast(vol.geo, clusterSeq, |chain|, from + nReadCount);
        }
        var more := StepCluster(chain);
        ok := ok && more;
      }
    }

    /** The reading loop: cluster after cluster until n bytes are in the buffer. */
    method ReadClusters(buf: array<byte>, n: nat, start: nat, ghost chain: seq<nat>, ghost content: seq<byte>,
                        ghost from: nat)
      returns (ok: bool)
      requires Shaped() && vol.Valid() && n <= buf.Length && buf != vol.secterData && start < vol.geo.BytesPerCluster()
      modifies `cluster, `clusterSeq, vol`secterIndex, vol`faults, vol.secterData, buf
      ensures Shaped() && vol.Valid() && vol.faults >= old(vol.faults)
      ensures buf[n..] == old(buf[n..])
      ensures old(OnTrack(chain, content, buf, 0, n, from, start)) && vol.faults == old(vol.faults)
              ==> ok && OnTrack(chain, content, buf, n, n, from, 0)
    {
      ghost var tracked := OnTrack(chain, content, buf, 0, n, from, start);
      var nReadCount: nat := 0;
      var pos: nat := start;
      ok := true;
      while nReadCount < n && ok
        invariant Shaped() && vol.Valid() && vol.faults >= old(vol.faults) && nReadCount <= n
        invariant ok ==> pos < vol.geo.BytesPerCluster()
        invariant buf[n..] == old(buf[n..])
        invariant tracked && vol.faults == old(vol.faults) ==>
                    ok && OnTrack(chain, content, buf, nReadCount, n, from, pos)
        decreases ok, n - nReadCount
      {
        ok, pos, nReadCount := ReadCluster(buf, nReadCount, n, pos, chain, content, from);
      }
    }

    /** Fat_FileRead. A file that is not open is left alone and reported as read. */
    method FileRead(buf: array<byte>, n: nat, ghost chain: seq<nat>) returns (ok: bool)
      requires Shaped() && vol.Valid() && n <= buf.Length && buf != vol.secterData
      modifies this, vol`secterIndex, vol`faults, vol.secterData, buf
      ensures Shaped() && vol.Valid() && vol.faults >= old(vol.faults) && isOpened == old(isOpened)
      ensures buf[n..] == old(buf[n..])
      ensures !isOpened ==> ok && seekPos == old(seekPos) && cluster == old(cluster) && clusterSeq == old(clusterSeq)
                            && buf[..] == old(buf[..])
      ensures isOpened ==> seekPos == if ok then U32(old(seekPos) + n) else old(seekPos)
      ensures isOpened && old(Synced(chain) && Inside(chain, n)) && vol.faults == old(vol.faults) ==>
                && ok
                && seekPos == old(seekPos) + n
                && buf[..n] == FileBytes(vol.disk, vol.geo, chain)[old(seekPos)..old(seekPos) + n]
                && Synced(chain) && seekPos <= Before(vol.geo, clusterSeq) + vol.geo.BytesPerCluster()
    {
      if !isOpened {
        return true;
      }
      ghost var from := seekPos;
      ghost var tracked := Synced(chain) && Inside(chain, n);
      ghost var content := if tracked then FileBytes(vol.disk, vol.geo, chain) else [];
      var pos: nat;
      ok, pos := MoveToCluster(chain);
      if ok {
        ok := ReadClusters(buf, n, pos, chain, content, from);
      }
      if ok {
        seekPos := U32(seekPos + n);
      }
    }
  }
}
