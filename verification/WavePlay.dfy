/** Streaming a wave file from the card to the audio DAC through a 512-byte buffer. */
module WavePlay {
  import opened Words
  import opened FatVolume
  import opened FatFile
  import opened FatBrowse
  import opened FatOpen

  const BUF_SIZE: nat := 512

  // ----- the player as a state machine over the bytes of the file -----

  /** Positions in the file: the next byte to play, the end of what has been read, the end of the data.
      The byte at file position i of the current block stands at buf[i % 512]. */
  datatype Play = Play(play: nat, read: nat, max: nat, buf: seq<byte>) {
    predicate Valid() { |buf| == BUF_SIZE && InStep(play, read, max) }

    predicate Finished() { play >= max }
  }

  /** What the buffer arithmetic relies on: reading stops at block boundaries or at the end of the data, and
      what has been read but not played lies within one block. */
  predicate InStep(play: nat, read: nat, max: nat) {
    && play <= read && (read % 512 == 0 || read == max)
    && (play < read ==> read - play <= 512 - play % 512)
  }

  function Min(a: nat, b: nat): nat { if a > b then b else a }

  /** The state once the next block, or what is left of the data, has been read into the buffer. */
  function Loaded(s: Play, buf: seq<byte>): (r: Play)
    requires s.Valid() && s.play == s.read < s.max && |buf| == BUF_SIZE
    ensures r.Valid() && r.play < r.read <= r.max
  {
    s.(read := s.read + Min(BUF_SIZE, s.max - s.play), buf := buf)
  }

  function Refill(c: seq<byte>, s: Play): (r: Play)
    requires s.Valid() && s.play == s.read < s.max <= |c|
    ensures r.Valid() && r.play < r.read <= r.max
  {
    var n := Min(BUF_SIZE, s.max - s.play);
    Loaded(s, c[s.read..s.read + n] + s.buf[n..])
  }

  function Ready(c: seq<byte>, s: Play): (r: Play)
    requires s.Valid() && s.play < s.max <= |c|
    ensures r.Valid() && r.play == s.play < r.read && r.max == s.max
  {
    if s.play < s.read then s else Refill(c, s)
  }

  /** How many bytes one call plays: whole stereo frames of four bytes. */
  function PlaySize(s: Play): (n: nat)
    requires s.Valid()
    ensures n % 4 == 0 && n <= s.read - s.play < n + 4
    ensures s.play % 512 + n <= 512
  {
    PlayedSize(s.read - s.play)
  }

  /** Whole frames of the bytes left. */
  function PlayedSize(left: nat): (n: nat)
    ensures n % 4 == 0 && n <= left < n + 4
  {
    left / 4 * 4
  }

  lemma Ahead(s: Play)
    requires s.Valid()
    ensures s.play <= s.read
  {
  }

  /** The state once the buffered frames have been played. */
  function Played(s: Play): (r: Play)
    requires s.Valid()
    ensures r.Valid() && r.max == s.max
  {
    StillInStep(s.play, s.read, s.max, PlaySize(s));
    s.(play := s.play + PlaySize(s))
  }

  lemma StillInStep(play: nat, read: nat, max: nat, n: nat)
    requires InStep(play, read, max) && n <= read - play
    ensures InStep(play + n, read, max)
  {
    if n < read - play {
      AddInBlock(play, n);
    }
  }

  /** Positions of one block. */
  lemma AddInBlock(play: nat, n: nat)
    requires play % 512 + n < 512
    ensures (play + n) % 512 == play % 512 + n
  {
    assert play == 512 * (play / 512) + play % 512;
    assert play + n == 512 * (play / 512) + (play % 512 + n);
  }

  /** The bytes one call sends to the DAC. */
  function Sent(c: seq<byte>, s: Play): seq<byte>
    requires s.Valid() && s.max <= |c|
  {
    if s.Finished() then [] else
      var r := Ready(c, s);
      r.buf[r.play % 512..r.play % 512 + PlaySize(r)]
  }

  /** One call of waveplay_execute before the end of the data; at the end the state stays for the restart. */
  function Step(c: seq<byte>, s: Play): (r: Play)
    requires s.Valid() && s.max <= |c|
    ensures r.Valid() && r.max == s.max
  {
    if s.Finished() then s else Played(Ready(c, s))
  }

  function After(c: seq<byte>, s: Play, k: nat): (r: Play)
    requires s.Valid() && s.max <= |c|
    ensures r.Valid() && r.max == s.max
    decreases k
  {
    if k == 0 then s else After(c, Step(c, s), k - 1)
  }

  /** Everything sent by k calls. */
  function Heard(c: seq<byte>, s: Play, k: nat): seq<byte>
    requires s.Valid() && s.max <= |c|
    decreases k
  {
    if k == 0 then [] else Sent(c, s) + Heard(c, Step(c, s), k - 1)
  }

  /** The state waveplay_start leaves: the first block read, data of `size` bytes at `offset`. */
  function Started(c: seq<byte>, offset: nat, size: nat): (s: Play)
    requires offset <= 512 <= |c|
    ensures s.Valid()
  {
    Play(offset, 512, offset + size, c[..512])
  }

  /** Where a halfword may stand. */
  predicate Aligned(address: nat) { address % 2 == 0 }

  lemma TwiceIsAligned(k: nat, n: nat)
    requires n == 2 * k
    ensures Aligned(n)
  {
  }

  lemma AlignedLoads(sample: nat, i: nat)
    requires Aligned(sample) && i % 4 == 0
    ensures Aligned(sample + i) && Aligned(sample + i + 2)
  {
    TwiceIsAligned(sample / 2 + 2 * (i / 4), sample + i);
    TwiceIsAligned(sample / 2 + 2 * (i / 4) + 1, sample + i + 2);
  }

  lemma AlignedInBlock(play: nat)
    ensures Aligned(play) <==> Aligned(play % 512)
  {
    assert play == 512 * (play / 512) + play % 512;
    assert Aligned(play) ==> play == 2 * (play / 2);
    if Aligned(play) {
      TwiceIsAligned(play / 2 - 256 * (play / 512), play % 512);
    }
    if Aligned(play % 512) {
      TwiceIsAligned(play % 512 / 2 + 256 * (play / 512), play);
    }
  }

  /** The samples are loaded as halfwords, so a call that sends any must begin at an even position; the buffer
      itself stands on a word boundary. */
  predicate EvenLoads(c: seq<byte>, s: Play, k: nat)
    requires s.Valid() && s.max <= |c|
    decreases k
  {
    k == 0 || ((Sent(c, s) == [] || Aligned(s.play)) && EvenLoads(c, Step(c, s), k - 1))
  }

  // ----- samples -----

  /** A stereo frame: two 16-bit samples as they stand in the buffer. */
  datatype Frame = Frame(left: nat, right: nat)

  function FramesOf(bytes: seq<byte>): seq<Frame> {
    if |bytes| < 4 then [] else [Frame(Le16(bytes, 0), Le16(bytes, 2))] + FramesOf(bytes[4..])
  }

  lemma NoFrames()
    ensures FramesOf([]) == []
  {
  }

  lemma {:induction false} FramesAppend(bytes: seq<byte>, i: nat)
    requires 4 * i + 4 <= |bytes|
    ensures FramesOf(bytes[..4 * (i + 1)]) == FramesOf(bytes[..4 * i]) + [Frame(Le16(bytes, 4 * i), Le16(bytes, 4 * i + 2))]
  {
    if i > 0 {
      FramesAppend(bytes[4..], i - 1);
      assert bytes[..4 * (i + 1)][4..] == bytes[4..][..4 * i] && bytes[..4 * i][4..] == bytes[4..][..4 * (i - 1)];
    } else {
      assert bytes[..0] == [];
    }
  }

  lemma {:induction false} FramesCount(bytes: seq<byte>)
    ensures |FramesOf(bytes)| == |bytes| / 4
  {
    hide Le16;
    if |bytes| >= 4 {
      FramesCount(bytes[4..]);
    }
  }

  lemma {:induction false} FramesConcat(a: seq<byte>, b: seq<byte>)
    requires |a| % 4 == 0
    ensures FramesOf(a + b) == FramesOf(a) + FramesOf(b)
  {
    hide Le16;
    if a == [] {
      NoFrames();
      assert a + b == b;
    } else {
      FramesConcat(a[4..], b);
      FirstFrame(a, b);
      var f := [Frame(Le16(a, 0), Le16(a, 2))];
      assert f + (FramesOf(a[4..]) + FramesOf(b)) == f + FramesOf(a[4..]) + FramesOf(b);
    }
  }

  // ----- samples as they stand in the file -----

  /** Stereo samples of two 16-bit words. */
  ghost predicate Samples(samples: seq<Frame>) {
    forall k :: 0 <= k < |samples| ==> samples[k].left < 0x1_0000 && samples[k].right < 0x1_0000
  }

  /** The samples as a PCM data chunk holds them: left before right, each with its low byte first. */
  ghost function PcmBytes(samples: seq<Frame>): (s: seq<byte>)
    requires Samples(samples)
    ensures |s| == 4 * |samples|
  {
    if samples == [] then [] else
      LowFirst(samples[0].left) + LowFirst(samples[0].right) + PcmBytes(samples[1..])
  }

  /** The frames of such bytes are the samples. */
  lemma {:induction false} PcmFrames(samples: seq<Frame>)
    requires Samples(samples)
    ensures FramesOf(PcmBytes(samples)) == samples
  {
    hide Le16;
    if samples == [] {
      NoFrames();
    } else {
      PcmFrames(samples[1..]);
      var f, bytes := samples[0], PcmBytes(samples);
      Written16(bytes, 0, f.left);
      Written16(bytes, 2, f.right);
      assert bytes[4..] == PcmBytes(samples[1..]);
      assert samples == [f] + samples[1..];
    }
  }

  /** Frames that are those of a data chunk's bytes are its samples. */
  ghost predicate Sounds(before: seq<Frame>, after: seq<Frame>, data: seq<byte>) {
    forall samples :: Samples(samples) && PcmBytes(samples) == data ==> after == before + samples
  }

  lemma SamplesSounded(before: seq<Frame>, after: seq<Frame>, data: seq<byte>)
    requires after == before + FramesOf(data)
    ensures Sounds(before, after, data)
  {
    forall samples | Samples(samples) && PcmBytes(samples) == data
      ensures after == before + samples
    {
      PcmFrames(samples);
    }
  }

  lemma FirstFrame(a: seq<byte>, b: seq<byte>)
    requires |a| >= 4
    ensures FramesOf(a + b) == [Frame(Le16(a, 0), Le16(a, 2))] + FramesOf(a[4..] + b)
    ensures FramesOf(a) == [Frame(Le16(a, 0), Le16(a, 2))] + FramesOf(a[4..])
  {
    hide Le16;
    SameBytes(a, b);
    assert (a + b)[4..] == a[4..] + b;
  }

  /** What has been sent when the loop stands at i: a frame for every four bytes, and from even addresses theirs. */
  ghost predicate LoadedFrames(bytes: seq<byte>, even: bool, sent: seq<Frame>, i: nat) {
    i <= |bytes| && i % 4 == 0 && |sent| == i / 4 && (even || i == 0 ==> sent == FramesOf(bytes[..i]))
  }

  lemma NoneLoaded(bytes: seq<byte>, even: bool)
    ensures LoadedFrames(bytes, even, [], 0)
  {
    assert bytes[..0] == [];
  }

  lemma OneLoaded(bytes: seq<byte>, even: bool, sent: seq<Frame>, i: nat, f: Frame)
    requires LoadedFrames(bytes, even, sent, i) && i + 4 <= |bytes|
    requires even ==> f == Frame(Le16(bytes, i), Le16(bytes, i + 2))
    ensures LoadedFrames(bytes, even, sent + [f], i + 4)
  {
    hide FramesOf, Le16;
    FramesAppend(bytes, i / 4);
  }

  lemma AllLoaded(bytes: seq<byte>, even: bool, sent: seq<Frame>)
    requires LoadedFrames(bytes, even, sent, |bytes|)
    ensures |sent| == |bytes| / 4 && (even || bytes == [] ==> sent == FramesOf(bytes))
  {
    assert bytes[..|bytes|] == bytes;
  }

  /** A halfword of a slice is the halfword of the whole. */
  lemma HalfwordIn(whole: seq<byte>, lo: nat, hi: nat, i: nat)
    requires lo + i + 2 <= hi <= |whole|
    ensures Le16(whole[lo..hi], i) == Le16(whole, lo + i)
  {
  }

  lemma SameBytes(a: seq<byte>, b: seq<byte>)
    requires |a| >= 4
    ensures Le16(a + b, 0) == Le16(a, 0) && Le16(a + b, 2) == Le16(a, 2)
  {
  }

  // ----- exactly when the data is played exactly -----

  /** All of the data is sent, in order, each byte once, by aligned loads, and then the player restarts. */
  ghost predicate PlaysExactly(c: seq<byte>, offset: nat, size: nat)
    requires offset <= 512 <= |c| && offset + size <= |c|
  {
    exists k :: PlayedAfter(c, offset, size, k)
  }

  ghost predicate PlayedAfter(c: seq<byte>, offset: nat, size: nat, k: nat)
    requires offset <= 512 <= |c| && offset + size <= |c|
  {
    var s := Started(c, offset, size);
    After(c, s, k).Finished() && Heard(c, s, k) == c[offset..offset + size] && EvenLoads(c, s, k)
  }

  /** The same of the frames that reach the DAC. */
  ghost predicate SoundedAfter(c: seq<byte>, offset: nat, size: nat, k: nat)
    requires offset <= 512 <= |c| && offset + size <= |c|
  {
    var s := Started(c, offset, size);
    && After(c, s, k).Finished() && EvenLoads(c, s, k)
    && FramesOf(Heard(c, s, k)) == FramesOf(c[offset..offset + size])
  }

  /** The condition: the data begins at an even offset; data that ends inside the first block must end where the
      whole frames of that block end; longer data must begin and end on a frame boundary. */
  predicate Frames(offset: nat, size: nat)
    requires offset <= 512
  {
    size == 0 || (Aligned(offset)
                  && if offset + size <= 512 then size == PlayedSize(512 - offset) else offset % 4 == 0 && size % 4 == 0)
  }

  /** How many 512-byte blocks n bytes take. */
  function Blocks(n: nat): nat { (n + 511) / 512 }

  lemma OneBlockLess(n: nat)
    requires n > 0
    ensures Blocks(n) == 1 + Blocks(n - Min(512, n))
    ensures Blocks(0) == 0
  {
  }

  /** How many calls that takes: one for each block the data touches. */
  function CallsFor(offset: nat, size: nat): nat
    requires offset <= 512
  {
    if size == 0 then 0
    else if offset == 512 then Blocks(size)
    else 1 + Blocks(if offset + size <= 512 then 0 else offset + size - 512)
  }

  lemma {:induction false} FinishedStays(c: seq<byte>, s: Play, k: nat)
    requires s.Valid() && s.max <= |c| && s.Finished()
    ensures After(c, s, k) == s && Heard(c, s, k) == [] && EvenLoads(c, s, k)
  {
    if k > 0 {
      FinishedStays(c, s, k - 1);
    }
  }

  /** Less than a frame left in the buffer, but not the end of the data: no further call changes anything. */
  lemma {:induction false} Stuck(c: seq<byte>, s: Play, k: nat)
    requires s.Valid() && s.max <= |c| && s.play < s.max && s.play < s.read < s.play + 4
    ensures After(c, s, k) == s
  {
    if k > 0 {
      assert Step(c, s) == s;
      Stuck(c, s, k - 1);
    }
  }

  lemma NothingYet(c: seq<byte>, s: Play)
    requires s.Valid() && s.max <= |c|
    ensures After(c, s, 0) == s && Heard(c, s, 0) == [] && EvenLoads(c, s, 0)
  {
  }

  lemma OneCallMore(c: seq<byte>, s: Play, k: nat)
    requires s.Valid() && s.max <= |c|
    ensures After(c, s, k + 1) == After(c, Step(c, s), k)
    ensures Heard(c, s, k + 1) == Sent(c, s) + Heard(c, Step(c, s), k)
    ensures EvenLoads(c, s, k + 1) <==> (Sent(c, s) == [] || Aligned(s.play)) && EvenLoads(c, Step(c, s), k)
  {
  }

  /** A call at a block boundary reads the next block, or the rest, and plays its whole frames. */
  lemma BlockCall(c: seq<byte>, s: Play)
    requires s.Valid() && s.max <= |c| && s.play == s.read < s.max && s.play % 512 == 0
    ensures var n := Min(512, s.max - s.play);
            var r := Step(c, s);
            && r.play == s.play + PlayedSize(n) && r.read == s.play + n
            && Sent(c, s) == c[s.play..s.play + PlayedSize(n)]
  {
    var n := Min(512, s.max - s.play);
    assert (c[s.read..s.read + n] + s.buf[n..])[0..PlayedSize(n)] == c[s.play..s.play + PlayedSize(n)];
  }

  /** A full block is played to its end. */
  lemma FullBlock(play: nat, max: nat)
    requires play % 512 == 0 && max - play >= 512
    ensures var n := Min(512, max - play);
            PlayedSize(n) == n == 512 && (play + n) % 512 == 0
  {
  }

  /** The rest of the data is played to its end when it is whole frames... */
  lemma LastBlock(play: nat, max: nat)
    requires play < max && play % 512 == 0 && max % 4 == 0
    ensures var n := Min(512, max - play);
            PlayedSize(n) == n
  {
    assert (max - play) % 4 == 0;
  }

  /** ... and not otherwise. */
  lemma BrokenFrame(play: nat, max: nat)
    requires play < max && play % 512 == 0 && max % 4 != 0
    ensures max - play != 512
    ensures var n := Min(512, max - play);
            n < 512 ==> PlayedSize(n) < n < PlayedSize(n) + 4
  {
    assert (max - play) % 4 != 0;
  }

  /** At a block boundary, or at the end, with whole frames left to play. */
  predicate AtBoundary(s: Play) {
    s.Valid() && s.play == s.read <= s.max && s.max % 4 == 0 && (s.play == s.max || s.play % 512 == 0)
  }

  lemma BoundaryCall(c: seq<byte>, s: Play)
    requires AtBoundary(s) && s.play < s.max <= |c|
    ensures var r := Step(c, s);
            && AtBoundary(r) && Sent(c, s) == c[s.play..r.play] && r.max == s.max
            && r.play == s.play + Min(512, s.max - s.play)
  {
    hide Step, Sent, InStep;
    BlockCall(c, s);
    LastBlock(s.play, s.max);
    if s.max - s.play >= 512 {
      FullBlock(s.play, s.max);
    }
  }

  lemma EvenAtBoundary(s: Play)
    requires AtBoundary(s)
    ensures Aligned(s.play)
  {
    hide Play.Valid;
    if s.play == s.max {
      TwiceIsAligned(2 * (s.play / 4), s.play);
    } else {
      TwiceIsAligned(256 * (s.play / 512), s.play);
    }
  }

  /** From a block boundary, data of whole frames is played to the end, block by block. */
  lemma {:induction false} PlaysRest(c: seq<byte>, s: Play, k: nat)
    requires AtBoundary(s) && s.max <= |c| && k == Blocks(s.max - s.play)
    ensures After(c, s, k).Finished() && Heard(c, s, k) == c[s.play..s.max] && EvenLoads(c, s, k)
    decreases s.max - s.play
  {
    hide Step, Sent, After, Heard, EvenLoads, Aligned, Blocks;
    if s.play == s.max {
      NothingYet(c, s);
      OneBlockLess(1);
    } else {
      OneBlockLess(s.max - s.play);
      BoundaryCall(c, s);
      EvenAtBoundary(s);
      PlaysRest(c, Step(c, s), k - 1);
      OneCallMore(c, s, k - 1);
      var mid := Step(c, s).play;
      assert c[s.play..s.max] == c[s.play..mid] + c[mid..s.max];
    }
  }

  lemma ChainIsChain(disk: seq<FatVolume.Sector>, g: Geometry, stop: nat, buffer: seq<byte>, filename: seq<byte>,
                     chain: seq<nat>)
    requires EndsAt(disk, g, stop) && |buffer| == NAME_SIZE && ChainOf(disk, g, stop, buffer, filename, chain)
    ensures IsChain(disk, g, chain)
  {
  }

  lemma BeginPlay(c: seq<byte>, s: Play)
    requires s.Valid() && s.max <= |c|
    ensures After(c, s, 0) == s && FramesOf(Heard(c, s, 0)) == []
  {
  }

  /** The machine's last step is the one after the others. */
  lemma {:induction false} OneCallLater(c: seq<byte>, s: Play, k: nat)
    requires s.Valid() && s.max <= |c|
    ensures var m := After(c, s, k);
            && After(c, s, k + 1) == Step(c, m)
            && FramesOf(Heard(c, s, k + 1)) == FramesOf(Heard(c, s, k)) + FramesOf(Sent(c, m))
            && (EvenLoads(c, s, k + 1) <==> EvenLoads(c, s, k) && (Sent(c, m) == [] || Aligned(m.play)))
    decreases k
  {
    hide Step, Sent, After, Heard, EvenLoads, Aligned, FramesOf;
    OneCallMore(c, s, k);
    if k == 0 {
      NothingYet(c, s);
      NothingYet(c, Step(c, s));
      NoFrames();
      assert Sent(c, s) + [] == Sent(c, s);
      assert [] + FramesOf(Sent(c, s)) == FramesOf(Sent(c, s));
    } else {
      OneCallMore(c, s, k - 1);
      OneCallLater(c, Step(c, s), k - 1);
      SentWhole(c, s);
      FramesConcat(Sent(c, s), Heard(c, Step(c, s), k - 1));
      FramesConcat(Sent(c, s), Heard(c, Step(c, s), k));
    }
  }

  lemma SentWhole(c: seq<byte>, s: Play)
    requires s.Valid() && s.max <= |c|
    ensures |Sent(c, s)| % 4 == 0
  {
  }

  /** From a block boundary, data that ends inside a frame never reaches its end. */
  lemma {:induction false} NeverEnds(c: seq<byte>, s: Play, k: nat)
    requires s.Valid() && s.max <= |c| && s.play == s.read < s.max && s.play % 512 == 0 && s.max % 4 != 0
    ensures !After(c, s, k).Finished()
    decreases k
  {
    hide Step, Sent, After, Heard, InStep, EvenLoads;
    if k == 0 {
      NothingYet(c, s);
    } else {
      BlockCall(c, s);
      BrokenFrame(s.play, s.max);
      if s.max - s.play >= 512 {
        FullBlock(s.play, s.max);
      }
      OneCallMore(c, s, k - 1);
      var r := Step(c, s);
      if r.play == r.read {
        NeverEnds(c, r, k - 1);
      } else {
        Stuck(c, r, k - 1);
      }
    }
  }

  /** What the first call does. */
  lemma FirstCall(c: seq<byte>, offset: nat, size: nat)
    requires offset <= 512 <= |c| && offset + size <= |c| && size > 0 && offset < 512
    ensures var s := Started(c, offset, size);
            var n := PlayedSize(512 - offset);
            && Step(c, s) == s.(play := offset + n) && Sent(c, s) == c[offset..offset + n]
  {
    var s := Started(c, offset, size);
    assert Ready(c, s) == s;
    InBlockAlready(offset);
    PrefixSlice(c, offset, offset + PlayedSize(512 - offset));
  }

  lemma PrefixSlice(c: seq<byte>, a: nat, b: nat)
    requires a <= b <= 512 <= |c|
    ensures c[..512][a..b] == c[a..b]
  {
  }

  lemma InBlockAlready(offset: nat)
    requires offset < 512
    ensures offset % 512 == offset
  {
  }

  lemma WholeFirstBlock(offset: nat)
    requires offset <= 512
    ensures offset % 4 == 0 ==> Aligned(offset) && PlayedSize(512 - offset) == 512 - offset
    ensures offset + PlayedSize(512 - offset) == 512 ==> offset % 4 == 0
  {
    if offset % 4 == 0 {
      TwiceIsAligned(2 * (offset / 4), offset);
    }
  }

  /** Data that ends with the whole frames of the first block is played by one call. */
  lemma ShortPlayed(c: seq<byte>, offset: nat, size: nat)
    requires offset < 512 <= |c| && offset + size <= 512 && size > 0 && Aligned(offset) && size == PlayedSize(512 - offset)
    ensures PlayedAfter(c, offset, size, 1)
  {
    hide Step, Sent, After, Heard, EvenLoads, Aligned, PlayedSize;
    var s := Started(c, offset, size);
    FirstCall(c, offset, size);
    FinishedStays(c, Step(c, s), 0);
    OneCallMore(c, s, 0);
  }

  /** Longer data: the rest of the first block, then block by block. */
  lemma LongPlayed(c: seq<byte>, offset: nat, size: nat)
    requires offset < 512 <= |c| && 512 < offset + size <= |c| && offset % 4 == 0 && size % 4 == 0
    ensures PlayedAfter(c, offset, size, 1 + Blocks(offset + size - 512))
  {
    hide Step, Sent, After, Heard, EvenLoads, Aligned, Blocks, PlayedSize, InStep;
    var s, k := Started(c, offset, size), Blocks(offset + size - 512);
    WholeFirstBlock(offset);
    FirstCall(c, offset, size);
    PlaysRest(c, Step(c, s), k);
    OneCallMore(c, s, k);
    TwoSlices(c, offset, 512, offset + size);
  }

  lemma TwoSlices(c: seq<byte>, lo: nat, mid: nat, hi: nat)
    requires lo <= mid <= hi <= |c|
    ensures c[lo..hi] == c[lo..mid] + c[mid..hi]
  {
  }

  lemma PlaysIf(c: seq<byte>, offset: nat, size: nat)
    requires offset <= 512 <= |c| && offset + size <= |c| && Frames(offset, size)
    ensures PlayedAfter(c, offset, size, CallsFor(offset, size))
  {
    hide Step, Sent, After, Heard, EvenLoads, Aligned, Blocks, PlayedSize;
    var s := Started(c, offset, size);
    OneBlockLess(1);
    if size == 0 {
      FinishedStays(c, s, 0);
    } else if offset == 512 {
      WholeFirstBlock(offset);
      PlaysRest(c, s, Blocks(size));
    } else if offset + size <= 512 {
      ShortPlayed(c, offset, size);
    } else {
      LongPlayed(c, offset, size);
    }
  }

  /** Further calls would not change what was sent; the next real one restarts the song. */
  lemma {:induction false} StaysPlayed(c: seq<byte>, s: Play, k: nat, calls: nat)
    requires s.Valid() && s.max <= |c| && After(c, s, k).Finished() && k <= calls
    ensures After(c, s, calls) == After(c, s, k) && Heard(c, s, calls) == Heard(c, s, k)
    ensures EvenLoads(c, s, k) <==> EvenLoads(c, s, calls)
    decreases k
  {
    hide Step, Sent, After, Heard, EvenLoads, Aligned;
    if k == 0 {
      NothingYet(c, s);
      FinishedStays(c, s, calls);
    } else {
      OneCallMore(c, s, k - 1);
      OneCallMore(c, s, calls - 1);
      StaysPlayed(c, Step(c, s), k - 1, calls - 1);
    }
  }

  /** Data that ends before the first block's frames do: more frames are sent than it has. */
  lemma FirstBlockOverrun(offset: nat, size: nat)
    requires offset < 512 && size > 0
    ensures var n := PlayedSize(512 - offset);
            size < n ==> size / 4 < n / 4
  {
  }

  /** When the first call ends data that was not to end there, it has sent more than the data. */
  lemma TooMuchSent(c: seq<byte>, offset: nat, size: nat, k: nat)
    requires offset < 512 <= |c| && offset + size <= |c| && size > 0 && k > 0 && !Frames(offset, size)
    requires Step(c, Started(c, offset, size)).Finished()
    ensures !SoundedAfter(c, offset, size, k)
  {
    hide Step, Sent, After, Heard, EvenLoads, Aligned, FramesOf, PlayedSize;
    var s := Started(c, offset, size);
    FirstCall(c, offset, size);
    OneCallMore(c, s, k - 1);
    FinishedStays(c, Step(c, s), k - 1);
    FramesCount(Heard(c, s, k));
    FramesCount(c[offset..offset + size]);
    FirstBlockOverrun(offset, size);
  }

  lemma PlaysOnlyIf(c: seq<byte>, offset: nat, size: nat, k: nat)
    requires offset <= 512 <= |c| && offset + size <= |c| && !Frames(offset, size)
    ensures !SoundedAfter(c, offset, size, k)
  {
    hide Step, Sent, After, Heard, EvenLoads, Aligned, FramesOf, PlayedSize;
    var s := Started(c, offset, size);
    WholeFirstBlock(offset);
    if k == 0 {
      NothingYet(c, s);
    } else {
      if offset == 512 {
        NeverEnds(c, s, k);
      } else {
        FirstCall(c, offset, size);
        var r := Step(c, s);
        OneCallMore(c, s, k - 1);
        if r.Finished() {
          TooMuchSent(c, offset, size, k);
        } else if r.play < 512 {
          Stuck(c, r, k - 1);
        } else {
          NeverEnds(c, r, k - 1);
        }
      }
    }
  }

  /** For data that begins in the first block, the player sends exactly the data and then restarts if and only
      if the frame condition holds; otherwise it loads across halfwords, plays too much or stops making progress.
      The bytes and the frames made of them tell the same. */
  lemma PlaysExactlyIff(c: seq<byte>, offset: nat, size: nat)
    requires offset <= 512 <= |c| && offset + size <= |c|
    ensures PlaysExactly(c, offset, size) <==> Frames(offset, size)
    ensures (exists k :: SoundedAfter(c, offset, size, k)) <==> Frames(offset, size)
  {
    hide PlayedAfter, SoundedAfter, Frames;
    if Frames(offset, size) {
      PlaysIf(c, offset, size);
      PlayedIsSounded(c, offset, size, CallsFor(offset, size));
    } else {
      forall k: nat
        ensures !PlayedAfter(c, offset, size, k) && !SoundedAfter(c, offset, size, k)
      {
        PlaysOnlyIf(c, offset, size, k);
        PlayedIsSounded(c, offset, size, k);
      }
    }
  }

  lemma PlayedIsSounded(c: seq<byte>, offset: nat, size: nat, k: nat)
    requires offset <= 512 <= |c| && offset + size <= |c|
    ensures PlayedAfter(c, offset, size, k) ==> SoundedAfter(c, offset, size, k)
  {
  }

  // ----- the player itself -----

  /** What the wave library makes of the first block: whether the format can be played, and where the data
      chunk's bytes begin and how many there are. A chunk whose header lies in the block begins by byte 512. */
  datatype RawHeader = RawHeader(supported: bool, offset: nat, size: nat)

  type Header = h: RawHeader | h.offset <= 512 && h.offset + h.size < TWO32 witness RawHeader(false, 0, 0)

  type Parser = seq<byte> -> Header

  class Player {
    const vol: Volume
    const filename: seq<byte>
    const szBuf: array<byte>
    var file: FileHandle?
    var playPos: nat
    var readPos: nat
    var maxPos: nat
    /** Frames handed to the DAC so far. */
    var dac: seq<Frame>

    constructor (vol: Volume, filename: seq<byte>)
      ensures this.vol == vol && this.filename == filename && fresh(szBuf) && file == null && dac == []
      ensures vol.Valid() && szBuf != vol.secterData ==> Valid()
    {
      this.vol, this.filename := vol, filename;
      szBuf := new byte[BUF_SIZE];
      file := null;
      playPos, readPos, maxPos := 0, 0, 0;
      dac := [];
    }

    ghost function Abs(): Play
      reads this, szBuf
    {
      Play(playPos, readPos, maxPos, szBuf[..])
    }

    ghost predicate Valid()
      reads this, szBuf, vol, vol.secterData, file
    {
      && vol.Valid() && szBuf != vol.secterData && Abs().Valid() && readPos < TWO32 && maxPos < TWO32
      && (file != null ==> file.vol == vol && file.Shaped())
    }

    /** The file handle is in step with the player: it stands where the player has read to, inside the chain
        that also holds all of the data. */
    ghost predicate Streams(chain: seq<nat>)
      reads this, vol, file
    {
      && file != null && file.vol == vol && file.isOpened && file.Synced(chain)
      && file.seekPos == readPos && maxPos <= Before(vol.geo, |chain|)
    }

    /** waveplay_start: open the file by name, read its first block and take the positions from its header.
        Without a file the C variable bSuccess is used unassigned. */
    method Start(parse: Parser, ghost stop: nat, ghost chain: seq<nat>) returns (ok: bool, ghost buffer: seq<byte>)
      requires Valid() && EndsAt(vol.disk, vol.geo, stop)
      modifies this, szBuf, vol`secterIndex, vol`faults, vol.secterData
      ensures Valid() && vol.faults >= old(vol.faults) && dac == old(dac) && |buffer| == NAME_SIZE
      ensures file == null || fresh(file)
      ensures vol.faults == old(vol.faults) && ChainOf(vol.disk, vol.geo, stop, buffer, filename, chain)
              && Before(vol.geo, |chain|) >= 512 ==>
                var c := FileBytes(vol.disk, vol.geo, chain);
                var header := parse(c[..512]);
                && ok == header.supported
                && (ok && header.offset + header.size <= |c| ==>
                      Streams(chain) && Abs() == Started(c, header.offset, header.size))
    {
      hide FirstMatch, FatFile.FileBytes, FatFile.IsChain, FatVolume.DirOnDisk, FatBrowse.EndsAt;
      var overrun;
      file, overrun, buffer := FileOpen(vol, filename, stop);
      if file != null {
        ok := file.FileRead(szBuf, BUF_SIZE, chain);
        assert szBuf[..512] == szBuf[..];
      } else {
        ok := *;
      }
      if ok {
        ok := TakePositions(parse(szBuf[..]));
      }
    }

    /** Set the play positions from the header of the first block. */
    method TakePositions(header: Header) returns (ok: bool)
      requires Abs().Valid()
      modifies `playPos, `readPos, `maxPos
      ensures ok == header.supported
      ensures !ok ==> Abs() == old(Abs())
      ensures ok ==> Abs() == Play(header.offset, BUF_SIZE, header.offset + header.size, szBuf[..])
      ensures Abs().Valid() && (ok ==> readPos < TWO32 && maxPos < TWO32)
    {
      ok := header.supported;
      if ok {
        playPos := header.offset;
        maxPos := U32(header.offset + header.size);
        readPos := BUF_SIZE;
      }
    }

    /** Read the next block of the file, or what is left of the data. */
    method ReadBlock(ghost chain: seq<nat>) returns (ok: bool)
      requires Valid() && playPos == readPos < maxPos
      modifies `readPos, szBuf, vol`secterIndex, vol`faults, vol.secterData, if file == null then {} else {file}
      ensures Valid() && vol.faults >= old(vol.faults)
      ensures ok ==> playPos < readPos
      ensures old(Streams(chain)) && vol.faults == old(vol.faults) ==>
                ok && Streams(chain) && Abs() == Refill(FileBytes(vol.disk, vol.geo, chain), old(Abs()))
    {
      hide FatFile.FileBytes, FatFile.IsChain, InStep;
      ghost var before := Abs();
      var readSize := BUF_SIZE;
      if readSize > maxPos - playPos {
        readSize := maxPos - playPos;
      }
      if file == null {
        ok := false;
      } else {
        ok := file.FileRead(szBuf, readSize, chain);
      }
      if ok {
        readPos := U32(readPos + readSize);
        assert Abs() == Loaded(before, szBuf[..]);
      }
      assert szBuf[..] == szBuf[..readSize] + szBuf[readSize..];
    }

    /** The loop of waveplay_execute that fills the buffer when all of it has been played. */
    method FillBuffer(ghost chain: seq<nat>) returns (ok: bool)
      requires Valid() && playPos < maxPos
      modifies `readPos, szBuf, vol`secterIndex, vol`faults, vol.secterData, if file == null then {} else {file}
      ensures Valid() && vol.faults >= old(vol.faults)
      ensures ok ==> playPos < readPos
      ensures old(Streams(chain)) && vol.faults == old(vol.faults) ==>
                ok && Streams(chain) && Abs() == Ready(FileBytes(vol.disk, vol.geo, chain), old(Abs()))
    {
      hide FatFile.FileBytes, FatFile.IsChain;
      ghost var streams := Streams(chain);
      ok := true;
      var dataReady := false;
      while !dataReady && ok
        invariant Valid() && vol.faults >= old(vol.faults)
        invariant dataReady ==> playPos < readPos
        invariant streams && vol.faults == old(vol.faults) ==> ok && Streams(chain)
        invariant streams && vol.faults == old(vol.faults) ==>
                    if playPos < readPos then Abs() == Ready(FileBytes(vol.disk, vol.geo, chain), old(Abs()))
                    else Abs() == old(Abs())
        decreases !dataReady && ok, playPos >= readPos
      {
        if playPos < readPos {
          dataReady := true;
        } else {
          ok := ReadBlock(chain);
        }
      }
    }

    /** One load through the sample pointer, a halfword pointer: C leaves it undefined at an odd address. */
    method LoadSample(at: nat) returns (sample: nat)
      requires at + 2 <= szBuf.Length
      ensures Aligned(at) ==> sample == Le16(szBuf[..], at)
    {
      if Aligned(at) {
        sample := Le16(szBuf[..], at);
      } else {
        sample := *;
      }
    }

    /** The two loads of a frame, i bytes after byte `sample` of the buffer. */
    method LoadFrame(sample: nat, i: nat, ghost playSize: nat) returns (frame: Frame)
      requires i % 4 == 0 && i + 4 <= playSize && sample + playSize <= szBuf.Length
      ensures var bytes := szBuf[sample..sample + playSize];
              Aligned(sample) ==> frame == Frame(Le16(bytes, i), Le16(bytes, i + 2))
    {
      hide Le16, Aligned;
      if Aligned(sample) {
        AlignedLoads(sample, i);
      }
      var left := LoadSample(sample + i);
      var right := LoadSample(sample + i + 2);
      HalfwordIn(szBuf[..], sample, sample + playSize, i);
      HalfwordIn(szBuf[..], sample, sample + playSize, i + 2);
      frame := Frame(left, right);
    }

    /** The sending loop, from byte `sample` of the buffer on. */
    method SendFrom(sample: nat, playSize: nat)
      requires playSize % 4 == 0 && sample + playSize <= szBuf.Length
      modifies `dac
      ensures |dac| == |old(dac)| + playSize / 4 && dac[..|old(dac)|] == old(dac)
      ensures Aligned(sample) || playSize == 0 ==> dac == old(dac) + FramesOf(szBuf[sample..sample + playSize])
    {
      hide FramesOf, LoadedFrames, Le16, Aligned;
      ghost var bytes, even := szBuf[sample..sample + playSize], Aligned(sample);
      ghost var sent := [];
      var i: nat := 0;
      NoneLoaded(bytes, even);
      while i < playSize
        invariant i <= playSize && i % 4 == 0
        invariant dac == old(dac) + sent && LoadedFrames(bytes, even, sent, i)
      {
        var frame := LoadFrame(sample, i, playSize);
        OneLoaded(bytes, even, sent, i, frame);
        dac := dac + [frame];
        sent := sent + [frame];
        i := i + 4;
      }
      AllLoaded(bytes, even, sent);
    }

    /** Hand the buffered frames to the DAC, waiting while its queue is full. */
    method SendFrames() returns (playSize: nat)
      requires Abs().Valid()
      modifies `dac
      ensures playSize == PlaySize(Abs())
      ensures Aligned(playPos) || playSize == 0 ==>
                dac == old(dac) + FramesOf(szBuf[playPos % 512..playPos % 512 + playSize])
      ensures |dac| == |old(dac)| + playSize / 4 && dac[..|old(dac)|] == old(dac)
    {
      hide FramesOf, InStep, Aligned;
      AlignedInBlock(playPos);
      Ahead(Abs());
      playSize := PlayedSize(readPos - playPos);
      assert playSize == PlaySize(Abs());
      SendFrom(playPos % 512, playSize);
    }

    /** waveplay_execute. At the end of the data it restarts the song and reports success whatever comes of it. */
    method Execute(parse: Parser, ghost stop: nat, ghost chain: seq<nat>) returns (ok: bool, ghost buffer: seq<byte>)
      requires Valid() && EndsAt(vol.disk, vol.geo, stop)
      modifies this, szBuf, vol`secterIndex, vol`faults, vol.secterData, if file == null then {} else {file}
      ensures Valid() && vol.faults >= old(vol.faults)
      ensures old(Abs().Finished()) ==> ok && dac == old(dac) && |buffer| == NAME_SIZE
      ensures old(Abs().Finished()) && vol.faults == old(vol.faults)
              && ChainOf(vol.disk, vol.geo, stop, buffer, filename, chain) && Before(vol.geo, |chain|) >= 512 ==>
                var c := FileBytes(vol.disk, vol.geo, chain);
                var header := parse(c[..512]);
                header.supported && header.offset + header.size <= |c| ==>
                  Streams(chain) && Abs() == Started(c, header.offset, header.size)
      ensures !old(Abs().Finished()) ==> file == old(file)
      ensures file == old(file) || file == null || fresh(file)
      ensures !old(Abs().Finished()) && old(Streams(chain)) && vol.faults == old(vol.faults) ==>
                var c := FileBytes(vol.disk, vol.geo, chain);
                && ok && Streams(chain) && Abs() == Step(c, old(Abs()))
                && (Aligned(old(playPos)) || Sent(c, old(Abs())) == [] ==>
                      dac == old(dac) + FramesOf(Sent(c, old(Abs()))))
    {
      hide FatFile.FileBytes, FatFile.IsChain, FramesOf, Ready, InStep, PlaySize, ChainOf;
      ok, buffer := true, [];
      if playPos >= maxPos {
        var started;
        started, buffer := Start(parse, stop, chain);
        return true, buffer;
      }
      ok := FillBuffer(chain);
      if ok {
        ghost var ready := Abs();
        var playSize := SendFrames();
        playPos := U32(playPos + playSize);
        assert Abs() == Played(ready);
      }
    }

    /** Successive calls of waveplay_execute, up to the one that would restart the song: what reaches the DAC is
        what the playing machine sends, frame by frame. */
    method PlayOn(parse: Parser, calls: nat, ghost stop: nat, ghost chain: seq<nat>) returns (ok: bool)
      requires Valid() && EndsAt(vol.disk, vol.geo, stop)
      modifies this, szBuf, vol`secterIndex, vol`faults, vol.secterData, if file == null then {} else {file}
      ensures Valid() && vol.faults >= old(vol.faults) && file == old(file)
      ensures old(Streams(chain)) && vol.faults == old(vol.faults) ==>
                var c, s := FileBytes(vol.disk, vol.geo, chain), old(Abs());
                && ok && Streams(chain) && Abs() == After(c, s, calls)
                && (EvenLoads(c, s, calls) ==> dac == old(dac) + FramesOf(Heard(c, s, calls)))
    {
      hide FatFile.FileBytes, FatFile.IsChain, FramesOf, Step, Sent, After, Heard, EvenLoads, EndsAt, ChainOf;
      ghost var s, c := Abs(), if Streams(chain) then FileBytes(vol.disk, vol.geo, chain) else [];
      ghost var streams := Streams(chain);
      ok := true;
      var i: nat := 0;
      if streams {
        BeginPlay(c, s);
      }
      while i < calls && playPos < maxPos && ok
        invariant i <= calls && Valid() && vol.faults >= old(vol.faults) && file == old(file)
        invariant streams && vol.faults == old(vol.faults) ==>
                    && ok && Streams(chain) && Abs() == After(c, s, i)
                    && (EvenLoads(c, s, i) ==> dac == old(dac) + FramesOf(Heard(c, s, i)))
      {
        if streams && vol.faults == old(vol.faults) {
          OneCallLater(c, s, i);
        }
        ghost var buffer;
        ok, buffer := Execute(parse, stop, chain);
        i := i + 1;
      }
      if streams && vol.faults == old(vol.faults) && i < calls {
        StaysPlayed(c, s, i, calls);
      }
    }

    /** A whole song, from waveplay_start to the restart: when its data begins and ends as the frame condition
        says, the DAC receives exactly the data's frames, in order, each once. */
    method PlaySong(parse: Parser, calls: nat, ghost stop: nat, ghost chain: seq<nat>)
      returns (ok: bool, ghost buffer: seq<byte>)
      requires Valid() && EndsAt(vol.disk, vol.geo, stop)
      modifies this, szBuf, vol`secterIndex, vol`faults, vol.secterData
      ensures Valid() && vol.faults >= old(vol.faults) && |buffer| == NAME_SIZE
      ensures vol.faults == old(vol.faults) && ChainOf(vol.disk, vol.geo, stop, buffer, filename, chain)
              && Before(vol.geo, |chain|) >= 512 ==>
                var c := FileBytes(vol.disk, vol.geo, chain);
                var header := parse(c[..512]);
                header.supported && header.offset + header.size <= |c| && Frames(header.offset, header.size)
                && calls >= CallsFor(header.offset, header.size) ==>
                  && ok && Abs().Finished() && dac == old(dac) + FramesOf(c[header.offset..header.offset + header.size])
                  && Sounds(old(dac), dac, c[header.offset..header.offset + header.size])
    {
      hide FatFile.FileBytes, FatFile.IsChain, FramesOf, Sounds, After, Heard, EvenLoads, EndsAt, Frames, ChainOf, CallsFor;
      ok, buffer := Start(parse, stop, chain);
      ghost var begun, faults := Abs(), vol.faults;
      ghost var streams := Streams(chain);
      if ok {
        ok := PlayOn(parse, calls, stop, chain);
      }
      if vol.faults == old(vol.faults) && ChainOf(vol.disk, vol.geo, stop, buffer, filename, chain)
         && Before(vol.geo, |chain|) >= 512 {
        ChainIsChain(vol.disk, vol.geo, stop, buffer, filename, chain);
        ghost var c := FileBytes(vol.disk, vol.geo, chain);
        ghost var header := parse(c[..512]);
        if header.supported && header.offset + header.size <= |c| && Frames(header.offset, header.size)
           && calls >= CallsFor(header.offset, header.size) {
          PlaysIf(c, header.offset, header.size);
          StaysPlayed(c, begun, CallsFor(header.offset, header.size), calls);
          SamplesSounded(old(dac), dac, c[header.offset..header.offset + header.size]);
        }
      }
    }
  }
}
