/** Browsing the root directory: long file names are spread over several entries, last part first. */
module FatBrowse {
  import opened Words
  import opened FatVolume

  // ----- classification of an entry -----

  predicate IsLastDir(e: DirEntry) { e[0] == 0x00 }

  predicate IsUnusedDir(e: DirEntry) { e[0] == 0xE5 }

  /** The first byte is none of those that no file name may begin with. */
  predicate IsValidDir(e: DirEntry) {
    e[0] !in {0x00, 0xE5, 0x22, 0x2A, 0x2B, 0x2C, 0x2E, 0x2F, 0x3A, 0x3B, 0x3C, 0x3E, 0x3F, 0x5B, 0x5C, 0x5D, 0x7C}
  }

  function Attribute(e: DirEntry): byte { e[11] }

  /** All four low attribute bits set. */
  predicate IsLong(e: DirEntry) { Attribute(e) % 16 == 15 }

  predicate HasArchive(e: DirEntry) { Attribute(e) / 32 % 2 == 1 }

  predicate HasDirectory(e: DirEntry) { Attribute(e) / 16 % 2 == 1 }

  predicate HasVolumeId(e: DirEntry) { Attribute(e) / 8 % 2 == 1 }

  /** An entry the search steps over without taking notice. */
  predicate Skipped(e: DirEntry) { !(IsValidDir(e) && !IsUnusedDir(e)) && !IsLastDir(e) }

  /** The 13 two-byte characters of a long-name entry. */
  function LongChars(e: DirEntry): (s: seq<byte>)
    ensures |s| == 26
  {
    e[1..11] + e[14..26] + e[28..32]
  }

  // ----- the short name -----

  /** Leading bytes up to the first zero or blank. */
  function Word(s: seq<byte>): (w: seq<byte>)
    ensures |w| <= |s| && w == s[..|w|]
    ensures forall i :: 0 <= i < |w| ==> w[i] != 0 && w[i] != 0x20
    ensures |w| < |s| ==> s[|w|] == 0 || s[|w|] == 0x20
  {
    if s == [] || s[0] == 0 || s[0] == 0x20 then [] else [s[0]] + Word(s[1..])
  }

  function ShortName(e: DirEntry): (s: seq<byte>)
    ensures |s| <= 12
  {
    Word(e[..8]) + if HasArchive(e) || HasDirectory(e) then [0x2E] + Word(e[8..11]) else []
  }

  function ShortText(e: DirEntry): (s: seq<byte>)
    ensures |s| <= 13
  {
    ShortName(e) + [0]
  }

  function Overwrite(name: seq<byte>, at: nat, text: seq<byte>): (r: seq<byte>)
    requires at + |text| <= |name|
    ensures |r| == |name|
  {
    name[..at] + text + name[at + |text|..]
  }

  // ----- the search as a function of the directory -----

  /** Where the search stands: the order number expected next, whether a long name is being collected, and
      the name buffer. */
  datatype Progress = Progress(order: nat, long: bool, name: seq<byte>)

  /** What the search makes of one entry. */
  datatype Look =
    | Again(p: Progress)                   // go on to the next entry
    | Taken(long: bool, name: seq<byte>)   // this is the entry looked for
    | Failed
    | Wild                                 // the C code writes outside szName

  datatype Outcome = Found(index: nat, long: bool, name: seq<byte>) | NotFound | Overrun

  const NAME_SIZE := 256

  function Zeros(n: nat): (s: seq<byte>)
    ensures |s| == n && forall i :: 0 <= i < n ==> s[i] == 0
  {
    seq(n, _ => 0)
  }

  function LookAt(e: DirEntry, p: Progress): (l: Look)
    requires |p.name| == NAME_SIZE
    ensures l.Again? ==> |l.p.name| == NAME_SIZE
  {
    if !IsValidDir(e) || IsUnusedDir(e) then
      if IsLastDir(e) then Failed else Again(p)
    else if IsLong(e) then
      LookAtLong(e[0] % 64, LongChars(e), p)
    else if p.long then
      if HasArchive(e) || HasDirectory(e) then Taken(true, p.name) else Failed
    else
      Taken(false, Overwrite(p.name, 0, ShortText(e)))
  }

  function LookAtLong(order: nat, chars: seq<byte>, p: Progress): (l: Look)
    requires |p.name| == NAME_SIZE && |chars| == 26
    ensures l.Again? ==> |l.p.name| == NAME_SIZE
  {
    if p.order == 0 && p.long then Failed
    else if p.order != 0 && order != p.order then Failed
    else if !(1 <= order && 26 * order <= NAME_SIZE) then Wild
    else
      var name := if p.order == 0 then Zeros(NAME_SIZE) else p.name;
      Again(Progress(order - 1, true, Overwrite(name, 26 * (order - 1), chars)))
  }

  function Scan(dir: seq<DirEntry>, i: nat, p: Progress): Outcome
    requires |p.name| == NAME_SIZE
    decreases |dir| - i
  {
    if i >= |dir| then NotFound
    else
      match LookAt(dir[i], p)
      case Again(p') => Scan(dir, i + 1, p')
      case Taken(long, name) => Found(i, long, name)
      case Failed => NotFound
      case Wild => Overrun
  }

  // ----- a long name laid out in the directory, as the FAT specification describes it -----

  function LongEntry(ord: byte, chars: seq<byte>, checksum: byte): DirEntry
    requires |chars| == 26
  {
    [ord] + chars[..10] + [0x0F, 0, checksum] + chars[10..22] + [0, 0] + chars[22..]
  }

  /** Entry k of the n that hold a name: the last part comes first and carries the mark 0x40. */
  function NameEntry(name: seq<byte>, n: nat, k: nat, checksum: byte): DirEntry
    requires |name| == 26 * n && k < n < 64
  {
    LongEntry(if k == 0 then 0x40 + n else n - k, name[26 * (n - 1 - k)..26 * (n - k)], checksum)
  }

  /** The n parts of the name stand at positions at[0] < ... < at[n-1], a short entry at at[n], and only
      entries that are stepped over before and between them, from `start` on. */
  ghost predicate LaidOut(dir: seq<DirEntry>, start: nat, at: seq<nat>, name: seq<byte>, n: nat, checksum: byte) {
    NameBefore(dir, start, at, name, n, checksum) && IsFileEntry(dir[at[n]])
  }

  /** ... or any entry at at[n]. */
  ghost predicate NameBefore(dir: seq<DirEntry>, start: nat, at: seq<nat>, name: seq<byte>, n: nat, checksum: byte) {
    && 1 <= n <= 9 && |name| == 26 * n && |at| == n + 1
    && (forall k :: 0 <= k < n ==> at[k] < |dir| && dir[at[k]] == NameEntry(name, n, k, checksum))
    && at[n] < |dir|
    && (forall k :: 0 <= k <= n ==> Gap(dir, start, at, k))
  }

  /** A short entry of a file or directory. */
  predicate IsFileEntry(e: DirEntry) {
    IsValidDir(e) && !IsUnusedDir(e) && !IsLong(e) && (HasArchive(e) || HasDirectory(e))
  }

  /** Nothing but entries stepped over between position k and the one before it. */
  ghost predicate Gap(dir: seq<DirEntry>, start: nat, at: seq<nat>, k: nat)
    requires k < |at|
  {
    var from := if k == 0 then start else at[k - 1] + 1;
    from <= at[k] <= |dir| && forall j :: from <= j < at[k] ==> Skipped(dir[j])
  }

  lemma {:induction false} ScanOverGap(dir: seq<DirEntry>, i: nat, m: nat, p: Progress)
    requires i <= m <= |dir| && |p.name| == NAME_SIZE
    requires forall j :: i <= j < m ==> Skipped(dir[j])
    ensures Scan(dir, i, p) == Scan(dir, m, p)
    decreases m - i
  {
    if i < m {
      ScanOverGap(dir, i + 1, m, p);
    }
  }

  lemma NameEntryRead(name: seq<byte>, n: nat, k: nat, checksum: byte)
    requires |name| == 26 * n && k < n <= 9
    ensures var e := NameEntry(name, n, k, checksum);
            && IsValidDir(e) && !IsUnusedDir(e) && IsLong(e) && e[0] % 64 == n - k
            && LongChars(e) == name[26 * (n - 1 - k)..26 * (n - k)]
  {
    var chars := name[26 * (n - 1 - k)..26 * (n - k)];
    var e := NameEntry(name, n, k, checksum);
    assert e[1..11] == chars[..10] && e[14..26] == chars[10..22] && e[28..32] == chars[22..];
    assert chars == chars[..10] + chars[10..22] + chars[22..];
  }

  /** The buffer once the parts from number m of the name on have been collected. */
  function Collected(name: seq<byte>, m: nat): (r: seq<byte>)
    requires 26 * m <= |name| <= NAME_SIZE
    ensures |r| == NAME_SIZE
  {
    Zeros(26 * m) + name[26 * m..] + Zeros(NAME_SIZE - |name|)
  }

  /** One more part in front of those collected. */
  lemma CollectedStep(name: seq<byte>, m: nat)
    requires 26 * (m + 1) <= |name| <= NAME_SIZE
    ensures Overwrite(Collected(name, m + 1), 26 * m, name[26 * m..26 * (m + 1)]) == Collected(name, m)
  {
    var l, r := Overwrite(Collected(name, m + 1), 26 * m, name[26 * m..26 * (m + 1)]), Collected(name, m);
    assert forall i :: 0 <= i < NAME_SIZE ==> l[i] == r[i];
  }

  /** A search that expects part number m of the name, or has found nothing yet, takes it in. */
  lemma LookTakesPart(name: seq<byte>, n: nat, m: nat, checksum: byte, p: Progress)
    requires 1 <= m <= n <= 9 && |name| == 26 * n && |p.name| == NAME_SIZE
    requires if m == n then p.order == 0 && !p.long else p == Progress(m, true, Collected(name, m))
    ensures LookAt(NameEntry(name, n, n - m, checksum), p) == Again(Progress(m - 1, true, Collected(name, m - 1)))
  {
    hide NameEntry, Overwrite, IsValidDir, IsUnusedDir, IsLong, LongChars;
    NameEntryRead(name, n, n - m, checksum);
    CollectedStep(name, m - 1);
    assert Zeros(NAME_SIZE) == Collected(name, n);
  }

  /** From the entry behind the part before, over what is stepped over, to part number m and past it. */
  lemma ScanToNextPart(dir: seq<DirEntry>, from: nat, here: nat, name: seq<byte>, n: nat, m: nat, checksum: byte, p: Progress)
    requires from <= here < |dir| && forall j :: from <= j < here ==> Skipped(dir[j])
    requires 1 <= m <= n <= 9 && |name| == 26 * n && |p.name| == NAME_SIZE
    requires dir[here] == NameEntry(name, n, n - m, checksum)
    requires if m == n then p.order == 0 && !p.long else p == Progress(m, true, Collected(name, m))
    ensures Scan(dir, from, p) == Scan(dir, here + 1, Progress(m - 1, true, Collected(name, m - 1)))
  {
    hide LookAt, NameEntry, Collected;
    ScanOverGap(dir, from, here, p);
    LookTakesPart(name, n, m, checksum, p);
  }

  /** From the entry behind the first k parts on, the search comes to the entry behind the last with the whole name. */
  lemma {:induction false} ScanFromPart(dir: seq<DirEntry>, start: nat, at: seq<nat>, name: seq<byte>, n: nat,
                                        checksum: byte, k: nat)
    requires NameBefore(dir, start, at, name, n, checksum) && 1 <= k <= n
    ensures Scan(dir, at[k - 1] + 1, Progress(n - k, true, Collected(name, n - k)))
            == Scan(dir, at[n], Progress(0, true, Collected(name, 0)))
    decreases n - k
  {
    hide Scan, Collected;
    var p := Progress(n - k, true, Collected(name, n - k));
    assert Gap(dir, start, at, k);
    if k == n {
      ScanOverGap(dir, at[k - 1] + 1, at[k], p);
    } else {
      ScanToNextPart(dir, at[k - 1] + 1, at[k], name, n, n - k, checksum, p);
      ScanFromPart(dir, start, at, name, n, checksum, k + 1);
    }
  }

  /** Whatever a long name of 1 to 9 parts, wherever it is laid out and whatever is stepped over before and between
      its parts, the search comes to the entry behind them with the whole name, zero-padded. */
  lemma NameCollected(dir: seq<DirEntry>, start: nat, at: seq<nat>, name: seq<byte>, n: nat, checksum: byte,
                      buffer: seq<byte>)
    requires NameBefore(dir, start, at, name, n, checksum) && |buffer| == NAME_SIZE
    ensures Scan(dir, start, Progress(0, false, buffer))
            == Scan(dir, at[n], Progress(0, true, name + Zeros(NAME_SIZE - |name|)))
  {
    hide Scan, Collected, NameEntry;
    assert Gap(dir, start, at, 0);
    ScanToNextPart(dir, start, at[0], name, n, n, checksum, Progress(0, false, buffer));
    ScanFromPart(dir, start, at, name, n, checksum, 1);
    AllCollected(name);
  }

  /** If that is the short entry of a file or directory, it is found. */
  lemma LongNameRoundTrip(dir: seq<DirEntry>, start: nat, at: seq<nat>, name: seq<byte>, n: nat, checksum: byte,
                          buffer: seq<byte>)
    requires LaidOut(dir, start, at, name, n, checksum) && |buffer| == NAME_SIZE
    ensures Scan(dir, start, Progress(0, false, buffer)) == Found(at[n], true, name + Zeros(NAME_SIZE - |name|))
  {
    hide Zeros;
    NameCollected(dir, start, at, name, n, checksum, buffer);
  }

  lemma AllCollected(name: seq<byte>)
    requires |name| <= NAME_SIZE
    ensures Collected(name, 0) == name + Zeros(NAME_SIZE - |name|)
  {
  }

  // ----- the browser -----

  /** The part of FILE_CONTEXT besides the name. */
  datatype FileInfo = FileInfo(longFilename: bool, isFile: bool, isDirectory: bool, isVolume: bool, dirEntryIndex: nat,
                               attribute: byte, createTime: nat, createDate: nat, lastAccessDate: nat,
                               firstLogicalClusterHi: nat, lastWriteTime: nat, lastWriteDate: nat,
                               firstLogicalCluster: nat, fileSize: nat)

  /** What is reported of an entry; the creation date is forgotten, so the record keeps the one it had. */
  function InfoOf(e: DirEntry, index: nat, long: bool, createDate: nat): FileInfo {
    FileInfo(long, HasArchive(e), HasDirectory(e), HasVolumeId(e), index, Attribute(e), Le16(e, 14), createDate,
             Le16(e, 18), Le16(e, 20), Le16(e, 22), Le16(e, 24), Le16(e, 26), Le32(e, 28))
  }

  // ----- a short entry, byte by byte, as the FAT specification describes it -----

  /** The attribute byte, flag by flag; bits 6 and 7 are reserved. */
  datatype Attributes = Attributes(readOnly: bool, hidden: bool, system: bool, volumeId: bool, directory: bool,
                                   archive: bool, reserved: nat)

  function AttributeByte(a: Attributes): (b: byte)
    requires a.reserved < 4
  {
    (if a.readOnly then 0x01 else 0) + (if a.hidden then 0x02 else 0) + (if a.system then 0x04 else 0)
    + (if a.volumeId then 0x08 else 0) + (if a.directory then 0x10 else 0) + (if a.archive then 0x20 else 0)
    + 0x40 * a.reserved
  }

  /** What else a short entry records. */
  datatype Record = Record(createTime: nat, createDate: nat, lastAccessDate: nat, clusterHi: nat, writeTime: nat,
                           writeDate: nat, cluster: nat, size: nat)
  {
    predicate Fits() {
      && createTime < 0x1_0000 && createDate < 0x1_0000 && lastAccessDate < 0x1_0000 && clusterHi < 0x1_0000
      && writeTime < 0x1_0000 && writeDate < 0x1_0000 && cluster < 0x1_0000 && size < 0x1_0000_0000
    }
  }

  /** A short entry: eight bytes of name, three of extension, the attributes, and from byte 14 on the record. */
  function ShortEntry(name: seq<byte>, ext: seq<byte>, a: Attributes, reserved: seq<byte>, r: Record): DirEntry
    requires |name| == 8 && |ext| == 3 && a.reserved < 4 && |reserved| == 2 && r.Fits()
  {
    name + ext + [AttributeByte(a)] + reserved + LowFirst(r.createTime) + LowFirst(r.createDate) + LowFirst(r.lastAccessDate)
    + LowFirst(r.clusterHi) + LowFirst(r.writeTime) + LowFirst(r.writeDate) + LowFirst(r.cluster) + LowFirst(r.size % 0x1_0000)
    + LowFirst(r.size / 0x1_0000)
  }

  lemma Parity(q: nat, bit: nat, half: nat)
    requires q == 2 * half + bit && bit < 2
    ensures q % 2 == bit
  {
  }

  lemma Split8(b: nat, q: nat, r: nat)
    requires b == 8 * q + r && r < 8
    ensures b / 8 == q
  {
  }

  lemma Split16(b: nat, q: nat, r: nat)
    requires b == 16 * q + r && r < 16
    ensures b / 16 == q && b % 16 == r
  {
  }

  lemma Split32(b: nat, q: nat, r: nat)
    requires b == 32 * q + r && r < 32
    ensures b / 32 == q
  {
  }

  lemma FlagBits(b: nat, low: nat, v: nat, d: nat, f: nat, rest: nat)
    requires low < 8 && v < 2 && d < 2 && f < 2 && b == low + 8 * v + 16 * d + 32 * f + 64 * rest
    ensures b % 16 == low + 8 * v && b / 8 % 2 == v && b / 16 % 2 == d && b / 32 % 2 == f
  {
    Split8(b, v + 2 * d + 4 * f + 8 * rest, low);
    Parity(b / 8, v, d + 2 * f + 4 * rest);
    Split16(b, d + 2 * f + 4 * rest, low + 8 * v);
    Parity(b / 16, d, f + 2 * rest);
    Split32(b, f + 2 * rest, low + 8 * v + 16 * d);
    Parity(b / 32, f, rest);
  }

  lemma AttributeFlags(e: DirEntry, a: Attributes)
    requires a.reserved < 4 && e[11] == AttributeByte(a)
    ensures HasArchive(e) == a.archive && HasDirectory(e) == a.directory && HasVolumeId(e) == a.volumeId
    ensures IsLong(e) == (a.readOnly && a.hidden && a.system && a.volumeId)
  {
    var low := (if a.readOnly then 1 else 0) + (if a.hidden then 2 else 0) + (if a.system then 4 else 0);
    var v, d, f := if a.volumeId then 1 else 0, if a.directory then 1 else 0, if a.archive then 1 else 0;
    FlagBits(e[11], low, v, d, f, a.reserved);
  }

  /** Neither a mark that a name may not hold (an equals sign is not taken for one) nor one of the two marks of an
      entry that is not in use. */
  predicate Ordinary(b: byte) {
    b != 0x00 && b != 0xE5 && b as char !in "\"*+,./:;<>?[\\]|"
  }

  /** What is reported of a short entry is what was laid out, but for the creation date, which stays as it was. */
  lemma EntryReported(name: seq<byte>, ext: seq<byte>, a: Attributes, reserved: seq<byte>, r: Record, index: nat,
                      long: bool, createDate: nat)
    requires |name| == 8 && |ext| == 3 && a.reserved < 4 && |reserved| == 2 && r.Fits()
    ensures InfoOf(ShortEntry(name, ext, a, reserved, r), index, long, createDate)
            == FileInfo(long, a.archive, a.directory, a.volumeId, index, AttributeByte(a), r.createTime, createDate,
                        r.lastAccessDate, r.clusterHi, r.writeTime, r.writeDate, r.cluster, r.size)
    ensures var e := ShortEntry(name, ext, a, reserved, r);
            Le16(e, 26) == r.cluster && Le32(e, 28) == r.size
  {
    hide Le16, Le32, AttributeByte, HasArchive, HasDirectory, HasVolumeId;
    var e := ShortEntry(name, ext, a, reserved, r);
    AttributeFlags(e, a);
    Written16(e, 14, r.createTime);
    Written16(e, 18, r.lastAccessDate);
    Written16(e, 20, r.clusterHi);
    Written16(e, 22, r.writeTime);
    Written16(e, 24, r.writeDate);
    Written16(e, 26, r.cluster);
    Halves(r.size);
    Written32(e, 28, r.size);
  }

  /** Which entries are in use, by their first character. */
  lemma FirstByte(e: DirEntry)
    ensures IsValidDir(e) && !IsUnusedDir(e) <==> Ordinary(e[0])
    ensures IsLastDir(e) <==> e[0] == 0x00
  {
    ListedByCode(e[0]);
  }

  lemma ListedByCode(b: byte)
    ensures b as char in "\"*+,./:;<>?[\\]|"
            <==> b in {0x22, 0x2A, 0x2B, 0x2C, 0x2E, 0x2F, 0x3A, 0x3B, 0x3C, 0x3E, 0x3F, 0x5B, 0x5C, 0x5D, 0x7C}
  {
  }

  /** An archive file or a directory with a name that may begin so is a file entry, whatever its
      other attributes, but for those four that mark a part of a long name. */
  lemma OrdinaryFile(name: seq<byte>, ext: seq<byte>, a: Attributes, reserved: seq<byte>, r: Record)
    requires |name| == 8 && |ext| == 3 && a.reserved < 4 && |reserved| == 2 && r.Fits() && Ordinary(name[0])
    requires (a.archive || a.directory) && !(a.readOnly && a.hidden && a.system && a.volumeId)
    ensures IsFileEntry(ShortEntry(name, ext, a, reserved, r))
  {
    hide AttributeByte, HasArchive, HasDirectory, HasVolumeId, IsLong;
    AttributeFlags(ShortEntry(name, ext, a, reserved, r), a);
  }

  /** A file or directory with a long name is found under that name, and reported with its own attributes, dates,
      cluster and size. */
  lemma FileFound(dir: seq<DirEntry>, start: nat, at: seq<nat>, name: seq<byte>, n: nat, checksum: byte,
                  buffer: seq<byte>, short: seq<byte>, ext: seq<byte>, a: Attributes, reserved: seq<byte>, r: Record,
                  createDate: nat)
    requires NameBefore(dir, start, at, name, n, checksum) && |buffer| == NAME_SIZE
    requires |short| == 8 && |ext| == 3 && a.reserved < 4 && |reserved| == 2 && r.Fits() && Ordinary(short[0])
    requires (a.archive || a.directory) && !(a.readOnly && a.hidden && a.system && a.volumeId)
    requires dir[at[n]] == ShortEntry(short, ext, a, reserved, r)
    ensures Scan(dir, start, Progress(0, false, buffer)) == Found(at[n], true, name + Zeros(NAME_SIZE - |name|))
    ensures InfoOf(dir[at[n]], at[n], true, createDate)
            == FileInfo(true, a.archive, a.directory, a.volumeId, at[n], AttributeByte(a), r.createTime, createDate,
                        r.lastAccessDate, r.clusterHi, r.writeTime, r.writeDate, r.cluster, r.size)
  {
    hide Scan, ShortEntry, AttributeByte, InfoOf, NameEntry, Gap;
    OrdinaryFile(short, ext, a, reserved, r);
    LongNameRoundTrip(dir, start, at, name, n, checksum, buffer);
    EntryReported(short, ext, a, reserved, r, at[n], true, createDate);
  }

  /** A volume label, or anything else that is neither archive nor directory, behind the parts of a name ends the search. */
  lemma LabelRefused(dir: seq<DirEntry>, start: nat, at: seq<nat>, name: seq<byte>, n: nat, checksum: byte,
                     buffer: seq<byte>, short: seq<byte>, ext: seq<byte>, a: Attributes, reserved: seq<byte>, r: Record)
    requires NameBefore(dir, start, at, name, n, checksum) && |buffer| == NAME_SIZE
    requires |short| == 8 && |ext| == 3 && a.reserved < 4 && |reserved| == 2 && r.Fits() && Ordinary(short[0])
    requires !a.archive && !a.directory && !(a.readOnly && a.hidden && a.system && a.volumeId)
    requires dir[at[n]] == ShortEntry(short, ext, a, reserved, r)
    ensures Scan(dir, start, Progress(0, false, buffer)) == NotFound
  {
    hide AttributeByte, HasArchive, HasDirectory, HasVolumeId, IsLong, Zeros, NameEntry, Gap;
    NameCollected(dir, start, at, name, n, checksum, buffer);
    AttributeFlags(dir[at[n]], a);
    assert dir[at[n]][0] == short[0];
  }

  /** An erased entry is stepped over, and an entry that begins with zero ends the directory. */
  lemma ErasedAndLast(dir: seq<DirEntry>, i: nat, p: Progress)
    requires i < |dir| && |p.name| == NAME_SIZE
    ensures dir[i][0] == 0xE5 ==> Scan(dir, i, p) == Scan(dir, i + 1, p)
    ensures dir[i][0] == 0x00 ==> Scan(dir, i, p) == NotFound
  {
  }

  class FileContext {
    const szName: array<byte>
    var info: FileInfo

    constructor ()
      ensures szName.Length == NAME_SIZE && fresh(szName)
    {
      szName := new byte[NAME_SIZE];
      info := FileInfo(false, false, false, false, 0, 0, 0, 0, 0, 0, 0, 0, 0, 0);
    }
  }

  /** fatComposeShortFilename: name, dot, extension, terminating zero. */
  method ComposeShortFilename(e: DirEntry, szName: array<byte>)
    requires szName.Length == NAME_SIZE
    modifies szName
    ensures szName[..] == Overwrite(old(szName[..]), 0, ShortText(e))
  {
    hide Word, HasArchive, HasDirectory, Overwrite, KeptFrom;
    ghost var before := szName[..];
    var nPos := CopyWord(e[..8], szName, 0, []);
    if HasArchive(e) || HasDirectory(e) {
      PutByte(szName, nPos, 0x2E, Word(e[..8]));
      nPos := nPos + 1;
      nPos := CopyWord(e[8..11], szName, nPos, Word(e[..8]) + [0x2E]);
      assert Word(e[..8]) + [0x2E] + Word(e[8..11]) == ShortName(e);
    }
    PutByte(szName, nPos, 0, ShortName(e));
    InFront(before, szName[..], ShortText(e));
  }

  lemma InFront(before: seq<byte>, after: seq<byte>, text: seq<byte>)
    requires |text| <= |before| && KeptFrom(before, after, |text|) && after[..|text|] == text
    ensures after == Overwrite(before, 0, text)
  {
    assert after == after[..|text|] + after[|text|..];
  }

  ghost predicate KeptFrom(before: seq<byte>, after: seq<byte>, n: nat) {
    |before| == |after| && forall k :: n <= k < |before| ==> before[k] == after[k]
  }

  /** Store one byte behind the text already at the front of the buffer. */
  method PutByte(szName: array<byte>, at: nat, b: byte, ghost text: seq<byte>)
    requires |text| == at < szName.Length && szName[..at] == text
    modifies szName
    ensures szName[..at + 1] == text + [b] && KeptFrom(old(szName[..]), szName[..], at + 1)
  {
    szName[at] := b;
  }

  /** Copy the leading bytes of a field up to the first zero or blank behind the text already there. */
  method CopyWord(field: seq<byte>, szName: array<byte>, at: nat, ghost text: seq<byte>) returns (nPos: nat)
    requires |text| == at && at + |field| <= szName.Length && szName[..at] == text
    modifies szName
    ensures nPos == at + |Word(field)| && szName[..nPos] == text + Word(field) && KeptFrom(old(szName[..]), szName[..], nPos)
  {
    var i := 0;
    nPos := at;
    while i < |field| && field[i] != 0 && field[i] != 0x20
      invariant 0 <= i <= |field| && nPos == at + i
      invariant forall k :: 0 <= k < i ==> field[k] != 0 && field[k] != 0x20
      invariant szName[..nPos] == text + field[..i] && KeptFrom(old(szName[..]), szName[..], nPos)
    {
      szName[nPos] := field[i];
      nPos, i := nPos + 1, i + 1;
      assert field[..i] == field[..i - 1] + [field[i - 1]];
    }
    WordStops(field, i);
  }

  lemma {:induction false} WordStops(s: seq<byte>, i: nat)
    requires i <= |s| && (forall k :: 0 <= k < i ==> s[k] != 0 && s[k] != 0x20)
    requires i < |s| ==> s[i] == 0 || s[i] == 0x20
    ensures Word(s) == s[..i]
  {
    if i > 0 {
      WordStops(s[1..], i - 1);
      assert s[..i] == [s[0]] + s[1..][..i - 1];
    }
  }

  /** Lay the three character fields of a long entry into the name buffer, one memcpy each. */
  method CastChars(e: DirEntry, szName: array<byte>, baseOffset: nat)
    requires baseOffset + 26 <= szName.Length
    modifies szName
    ensures szName[..] == Overwrite(old(szName[..]), baseOffset, LongChars(e))
  {
    forall i | 0 <= i < 10 { szName[baseOffset + i] := e[1 + i]; }
    forall i | 0 <= i < 12 { szName[baseOffset + 10 + i] := e[14 + i]; }
    forall i | 0 <= i < 4 { szName[baseOffset + 22 + i] := e[28 + i]; }
  }

  datatype Verdict = GoOn | Take | Fail | Stray

  /** The body of the search loop on one entry. */
  method VisitEntry(e: DirEntry, szName: array<byte>, order: nat, long: bool)
    returns (v: Verdict, nextOrder: nat, nextLong: bool)
    requires szName.Length == NAME_SIZE
    modifies szName
    ensures var l := LookAt(e, Progress(order, long, old(szName[..])));
            match v
            case GoOn => l == Again(Progress(nextOrder, nextLong, szName[..]))
            case Take => l == Taken(nextLong, szName[..])
            case Fail => l == Failed
            case Stray => l == Wild
  {
    hide IsValidDir, IsUnusedDir, IsLong, HasArchive, HasDirectory, LongChars, ShortText, Overwrite;
    v, nextOrder, nextLong := GoOn, order, long;
    if IsValidDir(e) && !IsUnusedDir(e) {
      if IsLong(e) {
        if nextOrder == 0 {
          if nextLong {
            v := Fail;
          } else {
            nextOrder := e[0] % 64;
          }
          forall i | 0 <= i < szName.Length { szName[i] := 0; }
          assert szName[..] == Zeros(NAME_SIZE);
        } else if e[0] % 64 != nextOrder {
          v := Fail;
        }
        if v != Fail {
          if nextOrder < 1 || 26 * nextOrder > NAME_SIZE {
            v := Stray;
          } else {
            nextLong := true;
            nextOrder := nextOrder - 1;
            CastChars(e, szName, nextOrder * 26);
          }
        }
      } else if nextLong {
        v := if !HasArchive(e) && !HasDirectory(e) then Fail else Take;
      } else {
        ComposeShortFilename(e, szName);
        v := Take;
      }
    } else if IsLastDir(e) {
      v := Fail;
    }
  }

  /** The first n entries of the root directory. */
  ghost function Directory(disk: seq<Sector>, g: Geometry, n: nat): (d: seq<DirEntry>)
    requires n == 0 || DirOnDisk(disk, g, n - 1)
    ensures |d| == n && forall i :: 0 <= i < n ==> d[i] == DirEntryAt(disk, g, i)
  {
    seq(n, i requires 0 <= i < n => DirEntryAt(disk, g, i))
  }

  /** The directory ends before entry n: all entries below it are on the disk, and entry n is the end mark
      or not on the disk. */
  ghost predicate EndsAt(disk: seq<Sector>, g: Geometry, n: nat) {
    && DirAddressable(g, n) && (n == 0 || DirOnDisk(disk, g, n - 1))
    && (DirOnDisk(disk, g, n) ==> IsLastDir(DirEntryAt(disk, g, n)))
  }

  class Browser {
    const vol: Volume
    var directoryIndex: nat

    /** Fat_FileBrowseBegin. */
    constructor (vol: Volume)
      ensures this.vol == vol && directoryIndex == U32(-1)
    {
      this.vol := vol;
      directoryIndex := U32(-1);
    }

    method BrowseNext(ctx: FileContext, ghost stop: nat) returns (find: bool, overrun: bool)
      requires vol.Valid() && directoryIndex < TWO32 && ctx.szName.Length == NAME_SIZE && ctx.szName != vol.secterData
      requires EndsAt(vol.disk, vol.geo, stop) && U32(directoryIndex + 1) <= stop
      modifies `directoryIndex, ctx, ctx.szName, vol`secterIndex, vol`faults, vol.secterData
      ensures vol.Valid() && directoryIndex < TWO32 && vol.faults >= old(vol.faults)
      ensures vol.faults > old(vol.faults) ==> !find && !overrun
      ensures vol.faults == old(vol.faults) ==>
                var dir := Directory(vol.disk, vol.geo, stop);
                match Scan(dir, U32(old(directoryIndex) + 1), Progress(0, false, old(ctx.szName[..])))
                case Found(index, long, name) =>
                  && find && !overrun && directoryIndex == index < stop && ctx.szName[..] == name
                  && ctx.info == InfoOf(dir[index], index, long, old(ctx.info.createDate))
                case NotFound => !find && !overrun
                case Overrun => !find && overrun
    {
      hide LookAt, InfoOf, IsLastDir, DirAddressable, DirEntryAt;
      var order: nat, long := 0, false;
      var verdict := GoOn;
      ghost var dir := Directory(vol.disk, vol.geo, stop);
      ghost var outcome := Scan(dir, U32(directoryIndex + 1), Progress(0, false, ctx.szName[..]));
      ghost var next: nat := U32(directoryIndex + 1);
      while verdict == GoOn
        invariant vol.Valid() && directoryIndex < TWO32 && vol.faults >= old(vol.faults)
        invariant verdict == GoOn ==> U32(directoryIndex + 1) == next <= stop && vol.faults == old(vol.faults)
        invariant verdict != Take ==> ctx.info == old(ctx.info)
        invariant vol.faults > old(vol.faults) ==> verdict == Fail
        invariant vol.faults == old(vol.faults) ==>
                    match verdict
                    case GoOn => Scan(dir, next, Progress(order, long, ctx.szName[..])) == outcome
                    case Take =>
                      && directoryIndex < stop && outcome == Found(directoryIndex, long, ctx.szName[..])
                      && ctx.info == InfoOf(dir[directoryIndex], directoryIndex, long, old(ctx.info.createDate))
                    case Fail => outcome == NotFound
                    case Stray => outcome == Overrun
        decreases verdict == GoOn, stop + 1 - next
      {
        directoryIndex := U32(directoryIndex + 1);
        BelowEnd(vol.disk, vol.geo, directoryIndex, stop);
        var found, offset := vol.FindDirectory(directoryIndex);
        if !found {
          verdict := Fail;
        } else {
          ghost var p := Progress(order, long, ctx.szName[..]);
          var e := vol.secterData[offset..offset + 32];
          verdict, order, long := VisitEntry(e, ctx.szName, order, long);
          if IsLastDir(e) {
            LastEntryFails(e, p);
          }
          if verdict == Take {
            ctx.info := InfoOf(e, directoryIndex, long, ctx.info.createDate);
          }
        }
        next := next + 1;
      }
      find, overrun := verdict == Take, verdict == Stray;
    }
  }

  lemma BelowEnd(disk: seq<Sector>, g: Geometry, i: nat, stop: nat)
    requires EndsAt(disk, g, stop) && i <= stop
    ensures DirAddressable(g, i) && (i < stop ==> DirOnDisk(disk, g, i))
  {
  }

  lemma LastEntryFails(e: DirEntry, p: Progress)
    requires IsLastDir(e) && |p.name| == NAME_SIZE
    ensures LookAt(e, p) == Failed
  {
  }
}
