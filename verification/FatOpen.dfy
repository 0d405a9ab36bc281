/** Opening a file by name: browse the root directory until a name matches. */
module FatOpen {
  import opened Words
  import opened FatVolume
  import opened FatFile
  import opened FatBrowse

  // ----- comparing names -----

  /** The characters before the terminating zero. */
  function CString(s: seq<byte>): seq<byte> {
    if s == [] || s[0] == 0 then [] else [s[0]] + CString(s[1..])
  }

  function NoBlank(b: byte): seq<byte> {
    if b != 0 && b != 0x20 then [b] else []
  }

  /** A collected long name as Fat_FileOpen compares it: up to the first zero character, both bytes of each
      two-byte character, without zero bytes and blanks. */
  function Stripped(name: seq<byte>): seq<byte> {
    if |name| < 2 || (name[0] == 0 && name[1] == 0) then []
    else NoBlank(name[0]) + NoBlank(name[1]) + Stripped(name[2..])
  }

  function Lower(b: byte): byte {
    if 0x41 <= b <= 0x5A then b + 0x20 else b
  }

  /** strcmpi: equal but for the case of ASCII letters. */
  predicate EqualIgnoringCase(s: seq<byte>, t: seq<byte>) {
    |s| == |t| && forall i :: 0 <= i < |s| ==> Lower(s[i]) == Lower(t[i])
  }

  predicate Matches(long: bool, name: seq<byte>, filename: seq<byte>) {
    if long then Stripped(name) == filename else EqualIgnoringCase(CString(name), filename)
  }

  /** The same text but for the case of its letters A to Z. */
  ghost predicate SameButForCase(s: seq<byte>, t: seq<byte>) {
    |s| == |t| && forall i :: 0 <= i < |s| ==>
      || s[i] == t[i]
      || (0x41 <= s[i] <= 0x5A && t[i] == s[i] + 0x20)
      || (0x41 <= t[i] <= 0x5A && s[i] == t[i] + 0x20)
  }

  lemma CaseIgnored(s: seq<byte>, t: seq<byte>)
    ensures EqualIgnoringCase(s, t) <==> SameButForCase(s, t)
  {
  }

  // ----- the search as a function of the directory -----

  datatype Opened = At(index: nat) | Missing | Astray

  lemma {:induction false} ScanGoesForward(dir: seq<DirEntry>, i: nat, p: Progress)
    requires |p.name| == NAME_SIZE
    ensures var r := Scan(dir, i, p);
            r.Found? ==> i <= r.index < |dir| && |r.name| == NAME_SIZE
    decreases |dir| - i
  {
    if i < |dir| {
      var l := LookAt(dir[i], p);
      if l.Again? {
        ScanGoesForward(dir, i + 1, l.p);
      }
    }
  }

  /** The first entry from i on that the browser stops at and whose name matches. */
  function FirstMatch(dir: seq<DirEntry>, i: nat, buffer: seq<byte>, filename: seq<byte>): (r: Opened)
    requires |buffer| == NAME_SIZE
    ensures r.At? ==> i <= r.index < |dir|
    decreases |dir| - i
  {
    ScanGoesForward(dir, i, Progress(0, false, buffer));
    match Scan(dir, i, Progress(0, false, buffer))
    case Found(index, long, name) =>
      if Matches(long, name, filename) then At(index) else FirstMatch(dir, index + 1, name, filename)
    case NotFound => Missing
    case Overrun => Astray
  }

  // ----- opening a file by its long name -----

  /** Two-byte little-endian characters of an ASCII text. */
  function Wide(text: seq<byte>): (w: seq<byte>)
    ensures |w| == 2 * |text|
  {
    if text == [] then [] else [text[0], 0] + Wide(text[1..])
  }

  function WithoutBlanks(text: seq<byte>): seq<byte> {
    if text == [] then [] else NoBlank(text[0]) + WithoutBlanks(text[1..])
  }

  /** A text without zeros and blanks stays as it is. */
  lemma {:induction false} NothingLeftOut(text: seq<byte>)
    requires 0 !in text && 0x20 !in text
    ensures WithoutBlanks(text) == text
  {
    if text != [] {
      NothingLeftOut(text[1..]);
      assert text == [text[0]] + text[1..];
    }
  }

  /** A blank is left out, wherever it stands. */
  lemma {:induction false} BlankLeftOut(a: seq<byte>, b: seq<byte>)
    ensures WithoutBlanks(a + [0x20] + b) == WithoutBlanks(a) + WithoutBlanks(b)
  {
    hide NoBlank;
    if a == [] {
      BlankFirst(b);
      assert a + [0x20] + b == [0x20] + b;
    } else {
      BlankLeftOut(a[1..], b);
      assert (a + [0x20] + b)[0] == a[0] && (a + [0x20] + b)[1..] == a[1..] + [0x20] + b;
    }
  }

  lemma BlankFirst(b: seq<byte>)
    ensures WithoutBlanks([0x20] + b) == WithoutBlanks(b)
  {
    assert ([0x20] + b)[1..] == b;
  }

  lemma {:induction false} StrippedWide(text: seq<byte>, rest: seq<byte>)
    requires 0 !in text && |rest| >= 2 && rest[0] == 0 && rest[1] == 0
    ensures Stripped(Wide(text) + rest) == WithoutBlanks(text)
  {
    if text != [] {
      StrippedWide(text[1..], rest);
      assert (Wide(text) + rest)[2..] == Wide(text[1..]) + rest;
    } else {
      assert Wide(text) + rest == rest;
    }
  }

  /** The 13 * n characters of a text shorter than that end with a zero character; what follows is padding. */
  ghost predicate Spells(name: seq<byte>, text: seq<byte>) {
    && 0 !in text && 2 * |text| <= |name| && name[..2 * |text|] == Wide(text)
    && (2 * |text| < |name| ==> 2 * |text| + 2 <= |name| && name[2 * |text|] == 0 && name[2 * |text| + 1] == 0)
  }

  /** The browser, starting at i, stops only at entries whose names do not match until it goes on from `start`. */
  predicate Passes(dir: seq<DirEntry>, i: nat, start: nat, buffer: seq<byte>, filename: seq<byte>)
    requires |buffer| == NAME_SIZE
    decreases |dir| - i
  {
    ScanGoesForward(dir, i, Progress(0, false, buffer));
    i == start
    || match Scan(dir, i, Progress(0, false, buffer))
       case Found(index, long, name) => !Matches(long, name, filename) && Passes(dir, index + 1, start, name, filename)
       case _ => false
  }

  /**
   * A file whose long name spells an ASCII text is found under the text without its blanks, behind any entries
   * whose names do not match.
   */
  lemma {:induction false} OpenByLongName(dir: seq<DirEntry>, i: nat, start: nat, at: seq<nat>, name: seq<byte>, n: nat,
                                          checksum: byte, buffer: seq<byte>, text: seq<byte>)
    requires LaidOut(dir, start, at, name, n, checksum) && |buffer| == NAME_SIZE && Spells(name, text)
    requires Passes(dir, i, start, buffer, WithoutBlanks(text))
    ensures FirstMatch(dir, i, buffer, WithoutBlanks(text)) == At(at[n])
    decreases |dir| - i
  {
    hide LaidOut, Scan, NameEntry, Spells;
    if i == start {
      OpenAtOnce(dir, start, at, name, n, checksum, buffer, text);
    } else {
      var progress := Progress(0, false, buffer);
      ScanGoesForward(dir, i, progress);
      var r := Scan(dir, i, progress);
      OpenByLongName(dir, r.index + 1, start, at, name, n, checksum, r.name, text);
    }
  }

  lemma OpenAtOnce(dir: seq<DirEntry>, start: nat, at: seq<nat>, name: seq<byte>, n: nat, checksum: byte,
                   buffer: seq<byte>, text: seq<byte>)
    requires LaidOut(dir, start, at, name, n, checksum) && |buffer| == NAME_SIZE && Spells(name, text)
    ensures FirstMatch(dir, start, buffer, WithoutBlanks(text)) == At(at[n])
  {
    hide LaidOut, Scan, NameEntry;
    NamesFit(dir, start, at, name, n, checksum);
    LongNameRoundTrip(dir, start, at, name, n, checksum, buffer);
    FoundName(name, n, text);
  }

  /** What the search leaves in the name buffer for a name of n parts strips to the text. */
  lemma FoundName(name: seq<byte>, n: nat, text: seq<byte>)
    requires |name| == 26 * n && n <= 9 && Spells(name, text)
    ensures Stripped(name + Zeros(NAME_SIZE - |name|)) == WithoutBlanks(text)
  {
    var whole := name + Zeros(NAME_SIZE - |name|);
    StrippedWide(text, whole[2 * |text|..]);
    assert whole == Wide(text) + whole[2 * |text|..];
  }

  /** A file of a directory: its long name, spelling a text, and the positions of its entries. */
  datatype LongFile = LongFile(at: seq<nat>, name: seq<byte>, n: nat, checksum: byte, text: seq<byte>)

  /** From `start` on the directory holds these files, one after the other. */
  ghost predicate Files(dir: seq<DirEntry>, start: nat, files: seq<LongFile>)
    decreases |files|
  {
    files != [] ==>
      var f := files[0];
      && LaidOut(dir, start, f.at, f.name, f.n, f.checksum) && Spells(f.name, f.text)
      && Files(dir, f.at[f.n] + 1, files[1..])
  }

  /** Among files with long names the first whose text agrees, blanks apart, is opened. */
  lemma {:induction false} OpenAmongFiles(dir: seq<DirEntry>, start: nat, files: seq<LongFile>, j: nat, buffer: seq<byte>)
    requires Files(dir, start, files) && j < |files| && |buffer| == NAME_SIZE
    requires forall k :: 0 <= k < j ==> WithoutBlanks(files[k].text) != WithoutBlanks(files[j].text)
    ensures files[j].n < |files[j].at|
    ensures FirstMatch(dir, start, buffer, WithoutBlanks(files[j].text)) == At(files[j].at[files[j].n])
    decreases |files|
  {
    hide LaidOut, Scan, NameEntry, Spells, WithoutBlanks, Stripped;
    var f := files[0];
    NamesFit(dir, start, f.at, f.name, f.n, f.checksum);
    if j == 0 {
      OpenAtOnce(dir, start, f.at, f.name, f.n, f.checksum, buffer, f.text);
    } else {
      LongNameRoundTrip(dir, start, f.at, f.name, f.n, f.checksum, buffer);
      FoundName(f.name, f.n, f.text);
      OpenAmongFiles(dir, f.at[f.n] + 1, files[1..], j - 1, f.name + Zeros(NAME_SIZE - |f.name|));
    }
  }

  // ----- opening a file by its short name -----

  function Blanks(n: nat): (s: seq<byte>)
    ensures |s| == n
  {
    seq(n, _ => 0x20)
  }

  /** Neither a zero nor a blank. */
  predicate Solid(text: seq<byte>) { 0 !in text && 0x20 !in text }

  lemma {:induction false} WordOfPadded(text: seq<byte>, n: nat)
    requires Solid(text)
    ensures Word(text + Blanks(n)) == text
  {
    if text == [] {
      assert text + Blanks(n) == Blanks(n);
    } else {
      WordOfPadded(text[1..], n);
      assert (text + Blanks(n))[1..] == text[1..] + Blanks(n);
    }
  }

  lemma {:induction false} TextBeforeZero(text: seq<byte>, rest: seq<byte>)
    requires 0 !in text
    ensures CString(text + [0] + rest) == text
  {
    if text != [] {
      TextBeforeZero(text[1..], rest);
      assert (text + [0] + rest)[1..] == text[1..] + [0] + rest;
    }
  }

  /** The search goes on past entries that do not match with some name in its buffer. */
  lemma {:induction false} PassedBy(dir: seq<DirEntry>, i: nat, start: nat, buffer: seq<byte>, filename: seq<byte>)
    returns (left: seq<byte>)
    requires |buffer| == NAME_SIZE && Passes(dir, i, start, buffer, filename)
    ensures |left| == NAME_SIZE && FirstMatch(dir, i, buffer, filename) == FirstMatch(dir, start, left, filename)
    decreases |dir| - i
  {
    hide Scan;
    if i == start {
      left := buffer;
    } else {
      ScanGoesForward(dir, i, Progress(0, false, buffer));
      var r := Scan(dir, i, Progress(0, false, buffer));
      left := PassedBy(dir, r.index + 1, start, r.name, filename);
    }
  }

  /** A file without a long name: its name and extension, padded with blanks, in a short entry. */
  ghost predicate HasShortName(e: DirEntry, name: seq<byte>, ext: seq<byte>, a: Attributes, reserved: seq<byte>, r: Record) {
    && 1 <= |name| <= 8 && |ext| <= 3 && Solid(name) && Solid(ext) && Ordinary(name[0])
    && a.reserved < 4 && |reserved| == 2 && r.Fits()
    && (a.archive || a.directory) && !(a.readOnly && a.hidden && a.system && a.volumeId)
    && e == ShortEntry(name + Blanks(8 - |name|), ext + Blanks(3 - |ext|), a, reserved, r)
  }

  lemma ShortNameComposed(e: DirEntry, name: seq<byte>, ext: seq<byte>, a: Attributes, reserved: seq<byte>, r: Record)
    requires HasShortName(e, name, ext, a, reserved, r)
    ensures IsFileEntry(e) && ShortName(e) == name + [0x2E] + ext && 0 !in ShortName(e)
  {
    hide AttributeByte, HasArchive, HasDirectory, LowFirst, Word, Blanks;
    OrdinaryFile(name + Blanks(8 - |name|), ext + Blanks(3 - |ext|), a, reserved, r);
    AttributeFlags(e, a);
    assert e[..8] == name + Blanks(8 - |name|) && e[8..11] == ext + Blanks(3 - |ext|);
    WordOfPadded(name, 8 - |name|);
    WordOfPadded(ext, 3 - |ext|);
  }

  /** A file that has only a short name is opened by that name, with its dot, in upper or lower case or any mixture,
      behind any entries that do not match. */
  lemma OpenByShortName(dir: seq<DirEntry>, i: nat, index: nat, buffer: seq<byte>, name: seq<byte>, ext: seq<byte>,
                        a: Attributes, reserved: seq<byte>, r: Record, filename: seq<byte>)
    requires |buffer| == NAME_SIZE && index < |dir| && HasShortName(dir[index], name, ext, a, reserved, r)
    requires Passes(dir, i, index, buffer, filename)
    ensures SameButForCase(name + [0x2E] + ext, filename) ==> FirstMatch(dir, i, buffer, filename) == At(index)
    ensures !SameButForCase(name + [0x2E] + ext, filename) ==> FirstMatch(dir, i, buffer, filename) != At(index)
  {
    hide HasShortName, Passes, SameButForCase, EqualIgnoringCase, CString, Scan, ShortName;
    var left := PassedBy(dir, i, index, buffer, filename);
    ShortNameComposed(dir[index], name, ext, a, reserved, r);
    ShortFound(dir, index, left);
    var text := Overwrite(left, 0, ShortText(dir[index]));
    assert text == ShortName(dir[index]) + [0] + left[|ShortText(dir[index])|..];
    TextBeforeZero(ShortName(dir[index]), left[|ShortText(dir[index])|..]);
    CaseIgnored(name + [0x2E] + ext, filename);
  }

  lemma ShortFound(dir: seq<DirEntry>, index: nat, name: seq<byte>)
    requires index < |dir| && |name| == NAME_SIZE && IsFileEntry(dir[index])
    ensures Scan(dir, index, Progress(0, false, name)) == Found(index, false, Overwrite(name, 0, ShortText(dir[index])))
  {
    hide ShortText, Overwrite;
  }

  lemma NamesFit(dir: seq<DirEntry>, start: nat, at: seq<nat>, name: seq<byte>, n: nat, checksum: byte)
    requires LaidOut(dir, start, at, name, n, checksum)
    ensures |name| == 26 * n && n <= 9 && |at| == n + 1
  {
  }

  // ----- a long name always ends inside the buffer -----

  /** The part of the buffer that nine name parts do not reach is zero. */
  predicate TailZero(name: seq<byte>) {
    |name| == NAME_SIZE && forall i :: 26 * 9 <= i < NAME_SIZE ==> name[i] == 0
  }

  lemma LookKeepsTail(e: DirEntry, p: Progress)
    requires |p.name| == NAME_SIZE && (p.long ==> TailZero(p.name)) && (p.order != 0 ==> p.long)
    ensures var l := LookAt(e, p);
            && (l.Again? ==> (l.p.long ==> TailZero(l.p.name)) && (l.p.order != 0 ==> l.p.long))
            && (l.Taken? && l.long ==> TailZero(l.name))
  {
    hide IsValidDir, ShortText;
  }

  lemma {:induction false} LongNamesEnd(dir: seq<DirEntry>, i: nat, p: Progress)
    requires |p.name| == NAME_SIZE && (p.long ==> TailZero(p.name)) && (p.order != 0 ==> p.long)
    ensures var r := Scan(dir, i, p);
            r.Found? && r.long ==> TailZero(r.name)
    decreases |dir| - i
  {
    hide LookAt, TailZero;
    if i < |dir| {
      LookKeepsTail(dir[i], p);
      var l := LookAt(dir[i], p);
      if l.Again? {
        LongNamesEnd(dir, i + 1, l.p);
      }
    }
  }

  /** The stripping loop: stops at a zero character, which a long name has before the end of the buffer. */
  method Strip(szName: array<byte>) returns (text: seq<byte>)
    requires TailZero(szName[..])
    ensures text == Stripped(szName[..])
  {
    hide Stripped, NoBlank;
    ghost var name := szName[..];
    assert forall i :: 26 * 9 <= i < NAME_SIZE ==> szName[i] == name[i] == 0;
    hide TailZero;
    text := [];
    var at: nat := 0;
    while !(szName[at] == 0 && szName[at + 1] == 0)
      invariant at <= 235
      invariant text + Stripped(name[at..]) == Stripped(name)
      decreases 235 - at
    {
      StrippedStep(name, at);
      Regroup(text, NoBlank(szName[at]), NoBlank(szName[at + 1]), Stripped(name[at + 2..]));
      text := text + NoBlank(szName[at]);
      text := text + NoBlank(szName[at + 1]);
      at := at + 2;
    }
    StrippedStep(name, at);
  }

  lemma Regroup(a: seq<byte>, b: seq<byte>, c: seq<byte>, d: seq<byte>)
    ensures a + (b + c + d) == a + b + c + d
  {
  }

  lemma StrippedStep(name: seq<byte>, i: nat)
    requires i + 2 <= |name|
    ensures Stripped(name[i..]) == if name[i] == 0 && name[i + 1] == 0 then []
                                   else NoBlank(name[i]) + NoBlank(name[i + 1]) + Stripped(name[i + 2..])
  {
    assert name[i..][2..] == name[i + 2..];
  }

  /** The chain begins at the cluster of the file the name leads to. */
  ghost predicate ChainOf(disk: seq<Sector>, g: Geometry, stop: nat, buffer: seq<byte>, filename: seq<byte>, chain: seq<nat>)
    requires EndsAt(disk, g, stop) && |buffer| == NAME_SIZE
  {
    var dir := Directory(disk, g, stop);
    var found := FirstMatch(dir, 0, buffer, filename);
    found.At? && IsChain(disk, g, chain) && chain[0] == Le16(dir[found.index], 26)
  }

  /** Fat_FileOpen. `filename` is the caller's string without its terminating zero. */
  method FileOpen(vol: Volume, filename: seq<byte>, ghost stop: nat)
    returns (file: FileHandle?, overrun: bool, ghost buffer: seq<byte>)
    requires vol.Valid() && EndsAt(vol.disk, vol.geo, stop)
    modifies vol`secterIndex, vol`faults, vol.secterData
    ensures vol.Valid() && vol.faults >= old(vol.faults) && |buffer| == NAME_SIZE
    ensures file != null ==>
              && fresh(file) && file.vol == vol && file.Shaped() && file.isOpened && file.seekPos == 0
              && forall chain :: IsChain(vol.disk, vol.geo, chain) && chain[0] == file.firstLogicalCluster
                                 ==> file.Synced(chain)
    ensures vol.faults == old(vol.faults) ==>
              var dir := Directory(vol.disk, vol.geo, stop);
              match FirstMatch(dir, 0, buffer, filename)
              case At(index) =>
                && file != null && !overrun && index < stop
                && file.firstLogicalCluster == Le16(dir[index], 26) && file.fileSize == Le32(dir[index], 28)
              case Missing => file == null && !overrun
              case Astray => file == null && overrun
    ensures vol.faults > old(vol.faults) ==> file == null
  {
    hide Scan, Matches, LookAt, TailZero, Directory, Le16, Le32, FatFile.IsChain;
    file := null;
    var browser := new Browser(vol);
    var ctx := new FileContext();
    buffer := ctx.szName[..];
    ghost var dir := Directory(vol.disk, vol.geo, stop);
    ghost var outcome := FirstMatch(dir, 0, buffer, filename);
    ghost var next: nat := 0;
    var more := true;
    var find := false;
    overrun := false;
    while !find && more
      invariant vol.Valid() && vol.faults >= old(vol.faults) && browser.directoryIndex < TWO32
      invariant fresh(browser) && fresh(ctx) && fresh(ctx.szName) && browser.vol == vol && ctx.szName.Length == NAME_SIZE
      invariant overrun ==> !find && !more
      invariant !find && more ==> U32(browser.directoryIndex + 1) == next <= stop && vol.faults == old(vol.faults)
      invariant vol.faults > old(vol.faults) ==> !find && !more
      invariant vol.faults == old(vol.faults) ==>
                  if find then
                    && outcome == At(browser.directoryIndex) && browser.directoryIndex < stop
                    && ctx.info.firstLogicalCluster == Le16(dir[browser.directoryIndex], 26)
                    && ctx.info.fileSize == Le32(dir[browser.directoryIndex], 28)
                  else if more then FirstMatch(dir, next, ctx.szName[..], filename) == outcome
                  else outcome == if overrun then Astray else Missing
      decreases !find && more, stop - next
    {
      ghost var name := ctx.szName[..];
      ScanGoesForward(dir, next, Progress(0, false, name));
      LongNamesEnd(dir, next, Progress(0, false, name));
      more, overrun := browser.BrowseNext(ctx, stop);
      if more {
        find := CompareName(ctx, filename);
        next := browser.directoryIndex + 1;
      }
    }
    if find {
      file := new FileHandle(vol, ctx.info.firstLogicalCluster, ctx.info.fileSize);
    }
  }

  method CompareName(ctx: FileContext, filename: seq<byte>) returns (same: bool)
    requires ctx.info.longFilename ==> TailZero(ctx.szName[..])
    ensures same == Matches(ctx.info.longFilename, ctx.szName[..], filename)
  {
    if ctx.info.longFilename {
      var text := Strip(ctx.szName);
      same := text == filename;
    } else {
      same := EqualIgnoringCase(CString(ctx.szName[..]), filename);
    }
  }
}
