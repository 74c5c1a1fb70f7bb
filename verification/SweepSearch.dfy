/** Searching a capture for mode C frames and for bursts after a preamble
    (metermon-rs/src/sweep.rs), against a search that looks at every bit position afresh. */
module SweepSearch {
  import opened Wrappers
  import opened Casts
  import opened Bytes
  import opened Sweeping
  import M = ModeC

  // ---------------------------------------------------------------- the naive search

  /** `n` whole bytes of the bit stream from any bit position on. */
  function BytesAt(bits: seq<bool>, start: nat, n: nat): (bytes: seq<Byte>)
    requires start + 8 * n <= |bits|
    ensures |bytes| == n
  {
    seq(n, j requires 0 <= j < n => FromBits(bits[start + 8 * j..start + 8 * j + 8]))
  }

  predicate SyncBefore(bits: seq<bool>, start: nat) {
    24 <= start <= |bits| && bits[start - 24..start] == SyncBits()
  }

  function MinNat(a: nat, b: nat): nat { if a < b then a else b }

  /** What is looked at from a position: 13 to 64 whole bytes. */
  function WindowAt(bits: seq<bool>, start: nat): Option<seq<Byte>>
    requires start <= |bits|
  {
    var avail := (|bits| - start) / 8;
    if avail < MIN_FRAME then None else Some(BytesAt(bits, start, MinNat(avail, MAX_FRAME)))
  }

  /** The frame in a window, cut to the length it announces if that is there. */
  function FrameIn(window: seq<Byte>): Option<seq<Byte>> {
    match M.Decode(window)
    case Err(_) => None
    case Ok(frame) =>
      if !frame.crcOk then None
      else
        var n := M.PacketSize(window);
        Some(if 0 < n <= |window| then window[..n] else window)
  }

  function FrameAt(bits: seq<bool>, start: nat): Option<seq<Byte>>
    requires start <= |bits|
  {
    match WindowAt(bits, start)
    case None => None
    case Some(window) => FrameIn(window)
  }

  /** The frames at all positions up to `end` that follow a sync word, in order. */
  function Found(bits: seq<bool>, end: nat): seq<seq<Byte>>
    requires end <= |bits|
  {
    if end == 0 then []
    else
      Found(bits, end - 1)
      + if SyncBefore(bits, end) && FrameAt(bits, end).Some? then [FrameAt(bits, end).value] else []
  }

  /** First occurrences only. */
  function Distinct<T(==)>(s: seq<T>): (r: seq<T>) {
    if s == [] then []
    else
      var init, last := Distinct(s[..|s| - 1]), s[|s| - 1];
      if last in init then init else init + [last]
  }

  // ---------------------------------------------------------------- the search as it runs

  method ReadWindow(raw: seq<Byte>, start: nat, n: nat) returns (window: seq<Byte>)
    requires start + 8 * n <= 8 * |raw|
    ensures window == BytesAt(Bits(raw), start, n)
  {
    hide Bits, FromBits;
    window := [];
    for j := 0 to n
      invariant window == BytesAt(Bits(raw), start, n)[..j]
    {
      var b := ByteAt(raw, start + j * 8);
      window := window + [b];
    }
  }

  method AnalyzeCt(raw: seq<Byte>, scorer: (seq<Byte>, nat) -> real) returns (cFrames: seq<seq<Byte>>, tBursts: nat)
    ensures cFrames == Distinct(Found(Bits(raw), 8 * |raw|))
    ensures tBursts == |Bursts(raw, scorer)|
  {
    hide Bits, Roll, Rolled, SyncBits, M.Decode, M.PacketSize, Bit, BytesAt, Distinct, Found;
    var nbits := 8 * |raw|;
    ghost var bits := Bits(raw);
    cFrames := [];
    DistinctStep<seq<Byte>>([], []);
    FoundNone(bits);
    var acc: bv32 := 0;
    assert bits[..0] == [];
    RollStep([], false);
    for i := 0 to nbits
      invariant acc == Roll(bits[..i])
      invariant cFrames == Distinct(Found(bits, i))
    {
      BitOfStream(raw, i);
      assert bits[..i + 1] == bits[..i] + [bits[i]];
      RollStep(bits[..i], bits[i]);
      acc := Rolled(acc, Bit(raw, i));
      SyncAt(bits, i);
      FoundStep(bits, i);
      if i >= 23 && acc == C_SYNC {
        var start := i + 1;
        var avail := (nbits - start) / 8;
        if avail >= MIN_FRAME {
          var window := ReadWindow(raw, start, MinNat(avail, MAX_FRAME));
          var decoded := M.Decode(window);
          if decoded.Ok? && decoded.value.crcOk {
            var plen := M.PacketSize(window);
            var f := if plen > 0 && plen <= |window| then window[..plen] else window;
            DistinctStep(Found(bits, i), f);
            if f !in cFrames {
              cFrames := cFrames + [f];
            }
          }
        }
      }
    }
    tBursts := CountModeBursts(raw, scorer);
  }

  lemma {:induction false} RollStep(bits: seq<bool>, x: bool)
    ensures Roll([]) == 0
    ensures Roll(bits + [x]) == Rolled(Roll(bits), x)
  {
    assert (bits + [x])[..|bits|] == bits;
  }

  lemma {:induction false} FoundNone(bits: seq<bool>)
    ensures Found(bits, 0) == []
  {
  }

  lemma {:induction false} FoundStep(bits: seq<bool>, i: nat)
    requires i < |bits|
    ensures Found(bits, i + 1)
         == if SyncBefore(bits, i + 1) && FrameAt(bits, i + 1).Some? then Found(bits, i) + [FrameAt(bits, i + 1).value]
            else Found(bits, i)
  {
    hide SyncBefore, FrameAt;
  }

  lemma {:induction false} DistinctStep<T>(s: seq<T>, x: T)
    ensures Distinct<T>([]) == []
    ensures Distinct(s + [x]) == if x in Distinct(s) then Distinct(s) else Distinct(s) + [x]
  {
    assert (s + [x])[..|s|] == s;
  }

  lemma {:induction false} SyncAt(bits: seq<bool>, i: nat)
    requires i < |bits|
    ensures (i >= 23 && Roll(bits[..i + 1]) == C_SYNC) <==> SyncBefore(bits, i + 1)
  {
    hide Roll, SyncBits;
    if i >= 23 {
      RollFindsSync(bits[..i + 1]);
      assert bits[..i + 1][i + 1 - 24..] == bits[i + 1 - 24..i + 1];
    }
  }

  // ---------------------------------------------------------------- bursts

  /** A preamble ends here: this bit repeats the one before, and the 16 bits before it
      alternate. */
  predicate EndsPreamble(bits: seq<bool>, i: nat) {
    && MIN_RUN <= i < |bits|
    && bits[i] == bits[i - 1]
    && forall j | i - MIN_RUN < j < i :: bits[j] != bits[j - 1]
  }

  /** The preamble ends whose following burst scores at least 0.90; none in a short capture. */
  function Bursts(raw: seq<Byte>, scorer: (seq<Byte>, nat) -> real): set<nat> {
    if 8 * |raw| < MIN_BITS then {} else BurstsTo(raw, scorer, 8 * |raw|)
  }

  function BurstsTo(raw: seq<Byte>, scorer: (seq<Byte>, nat) -> real, end: nat): set<nat> {
    set i: nat | i < end && EndsPreamble(Bits(raw), i) && scorer(raw, i) >= 0.90
  }

  lemma {:induction false} BurstsStep(raw: seq<Byte>, scorer: (seq<Byte>, nat) -> real, i: nat)
    ensures |BurstsTo(raw, scorer, i + 1)|
         == |BurstsTo(raw, scorer, i)| + if EndsPreamble(Bits(raw), i) && scorer(raw, i) >= 0.90 then 1 else 0
  {
    hide EndsPreamble, Bits;
    var before: set<nat>, after: set<nat> := BurstsTo(raw, scorer, i), BurstsTo(raw, scorer, i + 1);
    if EndsPreamble(Bits(raw), i) && scorer(raw, i) >= 0.90 {
      assert after == before + {i};
    } else {
      assert after == before;
    }
  }

  /** `run` bits up to position `i` alternate, and no more. */
  predicate IsRun(bits: seq<bool>, i: nat, run: nat)
    requires i <= |bits|
  {
    && 1 <= run <= i
    && (forall j | i - run < j < i :: bits[j] != bits[j - 1])
    && (run < i ==> bits[i - run] == bits[i - run - 1])
  }

  lemma {:induction false} LongRunEnds(bits: seq<bool>, i: nat, run: nat)
    requires i < |bits| && IsRun(bits, i, run) && bits[i] == bits[i - 1]
    ensures run >= MIN_RUN <==> EndsPreamble(bits, i)
  {
  }

  method CountModeBursts(raw: seq<Byte>, scorer: (seq<Byte>, nat) -> real) returns (count: nat)
    ensures count == |Bursts(raw, scorer)|
  {
    hide Bit, Bits, BurstsTo, EndsPreamble;
    var nbits := 8 * |raw|;
    ghost var bits := Bits(raw);
    if nbits < MIN_BITS {
      return 0;
    }
    count := 0;
    var run := 1;
    NoBurstsAtStart(raw, scorer);
    for i := 1 to nbits
      invariant IsRun(bits, i, run)
      invariant count == |BurstsTo(raw, scorer, i)|
    {
      BitOfStream(raw, i);
      BitOfStream(raw, i - 1);
      BurstsStep(raw, scorer, i);
      if Bit(raw, i) != Bit(raw, i - 1) {
        NotRepeated(bits, i);
        run := run + 1;
      } else {
        LongRunEnds(bits, i, run);
        if run >= MIN_RUN && scorer(raw, i) >= 0.90 {
          count := count + 1;
        }
        run := 1;
      }
    }
  }

  lemma {:induction false} NotRepeated(bits: seq<bool>, i: nat)
    requires 1 <= i < |bits| && bits[i] != bits[i - 1]
    ensures !EndsPreamble(bits, i)
  {
  }

  lemma {:induction false} NoBurstsAtStart(raw: seq<Byte>, scorer: (seq<Byte>, nat) -> real)
    ensures |BurstsTo(raw, scorer, 1)| == 0
  {
    assert BurstsTo(raw, scorer, 1) == {};
  }

  /** What is counted, in plain terms: in a capture of at least 400 bits, each place where a bit
      repeats the one before it after 16 alternating ones, if what follows scores 0.90. */
  lemma {:induction false} BurstsAre(raw: seq<Byte>, scorer: (seq<Byte>, nat) -> real, i: nat)
    ensures i in Bursts(raw, scorer) <==>
            var bits := Bits(raw);
            && |bits| >= 400 && 16 <= i < |bits| && scorer(raw, i) >= 0.90
            && bits[i] == bits[i - 1] && forall j | i - 16 < j < i :: bits[j] != bits[j - 1]
  {
    hide Bits;
  }

  // ---------------------------------------------------------------- what the search returns

  lemma {:induction false} DistinctHas<T>(s: seq<T>, x: T)
    ensures x in Distinct(s) <==> x in s
  {
    if s != [] {
      DistinctHas(s[..|s| - 1], x);
      assert s == s[..|s| - 1] + [s[|s| - 1]];
      DistinctHas(s[..|s| - 1], s[|s| - 1]);
    }
  }

  /** The result lists first occurrences in order: `at` gives where they are. */
  lemma {:induction false} DistinctOrder<T>(s: seq<T>) returns (at: seq<nat>)
    ensures |at| == |Distinct(s)|
    ensures forall i | 0 <= i < |at| :: at[i] < |s| && Distinct(s)[i] == s[at[i]] && s[at[i]] !in s[..at[i]]
    ensures forall i, j | 0 <= i < j < |at| :: at[i] < at[j]
    ensures forall i, j | 0 <= i < j < |at| :: Distinct(s)[i] != Distinct(s)[j]
  {
    hide Distinct, FirstsAt;
    at := FirstOccurrences(s);
    FirstsAtMeans(s, Distinct(s), at);
  }

  /** `d` lists the first occurrences in `s`, which are at the positions `at`. */
  predicate FirstsAt<T(==)>(s: seq<T>, d: seq<T>, at: seq<nat>) {
    && |at| == |d|
    && (forall i | 0 <= i < |at| :: at[i] < |s| && d[i] == s[at[i]] && s[at[i]] !in s[..at[i]])
    && (forall i, j | 0 <= i < j < |at| :: at[i] < at[j])
  }

  lemma {:induction false} FirstsAtMeans<T>(s: seq<T>, d: seq<T>, at: seq<nat>)
    requires FirstsAt(s, d, at)
    ensures |at| == |d|
    ensures forall i | 0 <= i < |at| :: at[i] < |s| && d[i] == s[at[i]] && s[at[i]] !in s[..at[i]]
    ensures forall i, j | 0 <= i < j < |at| :: at[i] < at[j]
    ensures forall i, j | 0 <= i < j < |at| :: d[i] != d[j]
  {
    forall i, j | 0 <= i < j < |at| ensures d[i] != d[j] {
      assert s[at[i]] in s[..at[j]];
    }
  }

  lemma {:induction false} FirstOccurrences<T>(s: seq<T>) returns (at: seq<nat>)
    ensures FirstsAt(s, Distinct(s), at)
  {
    hide FirstsAt, Distinct;
    if s == [] {
      at := [];
      DistinctNothing(s);
    } else {
      var init, last := s[..|s| - 1], s[|s| - 1];
      assert s == init + [last];
      at := FirstOccurrences(init);
      DistinctStep(init, last);
      DistinctHas(init, last);
      FirstsAtMore(init, last, Distinct(init), at);
      if last !in Distinct(init) {
        at := at + [|s| - 1];
      }
    }
  }

  lemma {:induction false} DistinctNothing<T>(s: seq<T>)
    requires s == []
    ensures Distinct(s) == [] && FirstsAt(s, [], [])
  {
  }

  lemma {:induction false} FirstsAtMore<T>(s: seq<T>, last: T, d: seq<T>, at: seq<nat>)
    requires FirstsAt(s, d, at)
    ensures FirstsAt(s + [last], d, at)
    ensures last !in s ==> FirstsAt(s + [last], d + [last], at + [|s|])
  {
    var t := s + [last];
    assert t[..|s|] == s;
    forall i | 0 <= i < |at| ensures t[..at[i]] == s[..at[i]] {
    }
  }


  lemma {:induction false} FoundAre(bits: seq<bool>, end: nat, f: seq<Byte>)
    requires end <= |bits|
    ensures f in Found(bits, end) <==> exists i: nat :: i <= end && SyncBefore(bits, i) && FrameAt(bits, i) == Some(f)
  {
    hide FrameAt, SyncBefore;
    if end > 0 {
      FoundAre(bits, end - 1, f);
    } else {
      NoSyncAtZero(bits);
    }
  }

  lemma {:induction false} NoSyncAtZero(bits: seq<bool>)
    ensures !SyncBefore(bits, 0)
  {
  }

  /** A frame is returned if and only if it stands behind a sync word somewhere in the capture,
      at any bit alignment, and each is returned once. */
  lemma {:induction false} FramesReturned(raw: seq<Byte>, f: seq<Byte>)
    ensures var frames := Distinct(Found(Bits(raw), 8 * |raw|));
            && (f in frames <==>
                  exists i: nat :: i <= 8 * |raw| && SyncBefore(Bits(raw), i) && FrameAt(Bits(raw), i) == Some(f))
            && (forall i, j | 0 <= i < j < |frames| :: frames[i] != frames[j])
  {
    hide FrameAt, SyncBefore, Bits;
    FoundAre(Bits(raw), 8 * |raw|, f);
    DistinctHas(Found(Bits(raw), 8 * |raw|), f);
    var at := DistinctOrder(Found(Bits(raw), 8 * |raw|));
  }

  // ---------------------------------------------------------------- a frame on the air is found

  lemma {:induction false} BitsOfBytesAt(bits: seq<bool>, start: nat, n: nat)
    requires start + 8 * n <= |bits|
    ensures Bits(BytesAt(bits, start, n)) == bits[start..start + 8 * n]
    decreases n
  {
    hide ByteBits, FromBits;
    var bytes := BytesAt(bits, start, n);
    if n > 0 {
      var first := bits[start..start + 8];
      FromBitsHolds(first);
      BitsOfBytesAt(bits, start + 8, n - 1);
      var later := BytesAt(bits, start + 8, n - 1);
      forall j | 0 <= j < n - 1 ensures bytes[1..][j] == later[j] {
        assert start + 8 + 8 * j == start + 8 * (j + 1);
      }
      assert bytes[1..] == later;
      assert bytes[0] == FromBits(first);
      assert bits[start..start + 8 * n] == first + bits[start + 8..start + 8 * n];
    }
  }

  lemma {:induction false} WindowStartsWith(bits: seq<bool>, start: nat, frame: seq<Byte>)
    requires MIN_FRAME <= |frame| <= MAX_FRAME && start + 8 * |frame| <= |bits|
    requires bits[start..start + 8 * |frame|] == Bits(frame)
    ensures WindowAt(bits, start).Some?
    ensures var w := WindowAt(bits, start).value; |frame| <= |w| && w == frame + w[|frame|..]
  {
    hide Bits, BytesAt;
    var avail := (|bits| - start) / 8;
    assert avail >= |frame|;
    var n := MinNat(avail, MAX_FRAME);
    var w := BytesAt(bits, start, n);
    BitsOfBytesAt(bits, start, n);
    var head := w[..|frame|];
    BitsConcat(head, w[|frame|..]);
    assert w == head + w[|frame|..];
    assert Bits(head) == Bits(w)[..8 * |frame|] == Bits(frame);
    BitsInjective(head, frame);
  }

  /** A window is 64 bytes long at most: a longer frame is cut. */
  lemma {:induction false} WindowCuts(bits: seq<bool>, start: nat, frame: seq<Byte>)
    requires |frame| > MAX_FRAME && start + 8 * |frame| <= |bits|
    requires bits[start..start + 8 * |frame|] == Bits(frame)
    ensures WindowAt(bits, start) == Some(frame[..MAX_FRAME])
  {
    hide Bits, BytesAt;
    var head := frame[..MAX_FRAME];
    BitsConcat(head, frame[MAX_FRAME..]);
    assert frame == head + frame[MAX_FRAME..];
    assert bits[start..start + 8 * MAX_FRAME] == bits[start..start + 8 * |frame|][..8 * MAX_FRAME];
    assert Bits(frame)[..8 * MAX_FRAME] == Bits(head);
    WindowStartsWith(bits, start, head);
    var w := WindowAt(bits, start).value;
    assert |w| == MAX_FRAME;
    assert w == head;
  }

  /** The frame stands in the stream from a position on. */
  predicate StandsAt(bits: seq<bool>, start: nat, frame: seq<Byte>) {
    start + 8 * |frame| <= |bits| && bits[start..start + 8 * |frame|] == Bits(frame)
  }

  /** What is returned of a Type A frame: all but its last two bytes if the length it announces
      leaves them out. */
  function ReturnedA(header: M.LinkHeader, app: seq<Byte>): seq<Byte> {
    var frame := M.EncodeTypeA(header, app);
    if |app| % 16 == 1 && |frame| >= 2 then frame[..|frame| - 2] else frame
  }

  /** A Type A frame anywhere in a capture, at any bit alignment and whatever surrounds it, is
      taken from its position if and only if it has at most 64 bytes. */
  lemma {:induction false} TypeAFrameIff(bits: seq<bool>, start: nat, header: M.LinkHeader, app: seq<Byte>)
    requires |app| <= 246 && StandsAt(bits, start, M.EncodeTypeA(header, app))
    ensures FrameAt(bits, start)
         == if |M.EncodeTypeA(header, app)| <= 64 then Some(ReturnedA(header, app)) else None
  {
    hide Bits, M.EncodeTypeA, WindowAt, FrameIn, M.Decode;
    var frame := M.EncodeTypeA(header, app);
    M.TypeAParts(header, app);
    if |frame| <= MAX_FRAME {
      WindowStartsWith(bits, start, frame);
      FrameInWindow(header, app, WindowAt(bits, start).value[|frame|..]);
    } else {
      WindowCuts(bits, start, frame);
      M.TypeACut(header, app, MAX_FRAME);
      RejectedIn(frame[..MAX_FRAME]);
    }
  }

  lemma {:induction false} RejectedIn(window: seq<Byte>)
    requires M.Decode(window).Ok? ==> !M.Decode(window).value.crcOk
    ensures FrameIn(window) == None
  {
    hide M.Decode;
  }

  /** A Type B frame is taken from its position if and only if it has at most 64 bytes and what
      follows it in the window is less than two bytes or happens to end in its own CRC: the
      decoder takes it for a second block. */
  lemma {:induction false} TypeBFrameIff(bits: seq<bool>, start: nat, header: M.LinkHeader, app: seq<Byte>)
    requires |app| <= 244 && StandsAt(bits, start, M.EncodeTypeB(header, app))
    ensures WindowAt(bits, start).Some?
    ensures var frame, window := M.EncodeTypeB(header, app), WindowAt(bits, start).value;
            FrameAt(bits, start)
            == if |frame| <= |window| && (M.NoSecondBlock(window[|frame|..]) || M.SecondBlockValid(window[|frame|..]))
               then Some(frame) else None
    ensures |M.EncodeTypeB(header, app)| <= |WindowAt(bits, start).value| <==> |M.EncodeTypeB(header, app)| <= 64
  {
    hide Bits, WindowAt, FrameIn, M.Decode, M.NoSecondBlock, M.SecondBlockValid, M.EncodeTypeB;
    var frame := M.EncodeTypeB(header, app);
    LengthOfB(header, app);
    if |frame| <= MAX_FRAME {
      WindowStartsWith(bits, start, frame);
      var after := WindowAt(bits, start).value[|frame|..];
      M.TypeBThen(header, app, after);
      if M.NoSecondBlock(after) || M.SecondBlockValid(after) {
        M.TypeBRoundTrip(header, app);
        M.PacketSizeOfPrefix(frame, after);
        FrameInCut(frame + after, frame, M.Decode(frame + after).value);
        assert frame[..|frame|] == frame;
      } else {
        RejectedIn(frame + after);
      }
    } else {
      WindowCuts(bits, start, frame);
      M.TypeBCut(header, app, MAX_FRAME);
      RejectedIn(frame[..MAX_FRAME]);
    }
  }

  lemma {:induction false} LengthOfB(header: M.LinkHeader, app: seq<Byte>)
    ensures |M.EncodeTypeB(header, app)| == 13 + |app|
  {
  }

  /** So a Type A frame of at most 64 bytes behind a sync word is among the frames returned. */
  lemma {:induction false} TypeAFrameIsRecovered(raw: seq<Byte>, start: nat, header: M.LinkHeader, app: seq<Byte>)
    requires |app| <= 246 && |M.EncodeTypeA(header, app)| <= 64
    requires SyncBefore(Bits(raw), start) && StandsAt(Bits(raw), start, M.EncodeTypeA(header, app))
    ensures ReturnedA(header, app) in Distinct(Found(Bits(raw), 8 * |raw|))
  {
    hide Bits, M.EncodeTypeA, FrameAt, Found, Distinct;
    TypeAFrameIff(Bits(raw), start, header, app);
    FramesReturned(raw, ReturnedA(header, app));
  }

  /** And a Type B frame of at most 64 bytes with which the window ends, give or take a byte. */
  lemma {:induction false} TypeBFrameIsRecovered(raw: seq<Byte>, start: nat, header: M.LinkHeader, app: seq<Byte>)
    requires |app| <= 244 && |M.EncodeTypeB(header, app)| <= 64
    requires SyncBefore(Bits(raw), start) && StandsAt(Bits(raw), start, M.EncodeTypeB(header, app))
    requires 8 * |raw| < start + 8 * |M.EncodeTypeB(header, app)| + 16 || |M.EncodeTypeB(header, app)| >= 63
    ensures M.EncodeTypeB(header, app) in Distinct(Found(Bits(raw), 8 * |raw|))
  {
    hide Bits, M.EncodeTypeB, FrameAt, Found, Distinct, BytesAt;
    TypeBFrameIff(Bits(raw), start, header, app);
    assert M.NoSecondBlock(WindowAt(Bits(raw), start).value[|M.EncodeTypeB(header, app)|..]);
    FramesReturned(raw, M.EncodeTypeB(header, app));
  }

  // ---------------------------------------------------------------- a frame that is lost

  const LOST_HEADER: M.LinkHeader := [0, 0, 0, 0, 0, 0, 0, 0, 0]

  /** A correct Type B frame behind the sync word, and two bytes of silence after it. */
  function LostCapture(): (raw: seq<Byte>) {
    SYNC_BYTES + M.EncodeTypeB(LOST_HEADER, []) + [0, 0]
  }

  lemma {:induction false} ZerosAreNoBlock()
    ensures !M.NoSecondBlock([0, 0]) && !M.SecondBlockValid([0, 0])
  {
    assert [0, 0][..0] == [] && [0, 0][0..] == [0, 0];
  }

  lemma {:induction false} LostStart()
    ensures var raw := LostCapture();
            && |raw| == 18 && raw == [0x54, 0x3D, 0x54, 0x3D, 0x0B] + raw[5..]
            && StandsAt(Bits(raw), 24, M.EncodeTypeB(LOST_HEADER, []))
            && raw[16..] == [0, 0]
  {
    hide Bits;
    var raw, frame := LostCapture(), M.EncodeTypeB(LOST_HEADER, []);
    LengthOfB(LOST_HEADER, []);
    Eleven();
    assert frame[0] == 0x3D && frame[1] == Truncate(11);
    BitsConcat(SYNC_BYTES, frame + [0, 0]);
    BitsConcat(frame, [0, 0]);
    assert raw == SYNC_BYTES + (frame + [0, 0]);
  }

  lemma {:induction false} Eleven()
    ensures Truncate(11) == 0x0B
  {
    ElevenNumber();
    TruncateOf(11, 0x0B);
  }

  lemma {:induction false} ElevenNumber()
    ensures 11 == Number(0x0B)
  {
  }

  lemma {:induction false} BitsOf0B()
    ensures ByteBits(0x0B) == [false, false, false, false, true, false, true, true]
  {
    ByteMasks();
  }

  lemma {:induction false} LostBits()
    ensures Bits(LostCapture())[..40]
         == [false, true, false, true, false, true, false, false] + [false, false, true, true, true, true, false, true]
            + [false, true, false, true, false, true, false, false]
            + [false, false, true, true, true, true, false, true]
            + [false, false, false, false, true, false, true, true]
    ensures SyncBits() == Bits(LostCapture())[..24]
  {
    hide ByteBits, LostCapture, M.EncodeTypeB;
    LostStart();
    var raw := LostCapture();
    BitsOf54();
    BitsOf3D();
    BitsOf0B();
    SyncBitsAre();
    BitsConcat(SYNC_BYTES, [0x3D, 0x0B] + raw[5..]);
    BitsConcat([0x3D], [0x0B] + raw[5..]);
    BitsConcat([0x0B], raw[5..]);
    OneByte(0x3D);
    OneByte(0x0B);
    assert raw == SYNC_BYTES + ([0x3D] + ([0x0B] + raw[5..]));
    assert [0x3D] + ([0x0B] + raw[5..]) == [0x3D, 0x0B] + raw[5..];
  }

  lemma {:induction false} OneByte(b: Byte)
    ensures Bits([b]) == ByteBits(b)
  {
    hide ByteBits;
    assert [b][1..] == [];
    assert Bits([]) == [];
    assert ByteBits(b) + [] == ByteBits(b);
  }

  /** Where the sync word differs from the capture 1 to 16 bits further on. */
  const MISMATCH: seq<nat> := [0, 5, 0, 3, 0, 1, 1, 1, 2, 0, 0, 0, 0, 7, 0, 17]

  lemma {:induction false} NoOtherSync(k: nat)
    requires 1 <= k <= 16
    ensures !SyncBefore(Bits(LostCapture()), 24 + k)
  {
    hide Bits, LostCapture, SyncBits;
    LostBits();
    LostStart();
    var bits := Bits(LostCapture());
    var part := bits[..40];
    var j := MISMATCH[k - 1];
    assert part[k + j] != part[j];
    assert bits[k..24 + k][j] == part[k + j];
    assert SyncBits()[j] == part[j];
  }

  /** That capture holds a correct frame, and the sweep returns nothing. */
  lemma {:induction false} TypeBFrameIsLost()
    ensures SyncBefore(Bits(LostCapture()), 24)
    ensures StandsAt(Bits(LostCapture()), 24, M.EncodeTypeB(LOST_HEADER, []))
    ensures Distinct(Found(Bits(LostCapture()), 8 * |LostCapture()|)) == []
  {
    hide Bits, LostCapture, SyncBits, M.EncodeTypeB, FrameIn, Found, Distinct, BytesAt;
    var raw := LostCapture();
    var bits := Bits(raw);
    LostStart();
    LostBits();
    LengthOfB(LOST_HEADER, []);
    assert bits[0..24] == bits[..24];
    TypeBFrameIff(bits, 24, LOST_HEADER, []);
    LostWindow();
    ZerosAreNoBlock();
    var frames := Distinct(Found(bits, 8 * |raw|));
    if frames != [] {
      FramesReturned(raw, frames[0]);
      var i: nat :| i <= 8 * |raw| && SyncBefore(bits, i) && FrameAt(bits, i) == Some(frames[0]);
      NoOtherPlace(i);
    }
  }

  lemma {:induction false} NoOtherPlace(i: nat)
    requires i <= 8 * |LostCapture()| && SyncBefore(Bits(LostCapture()), i)
    requires FrameAt(Bits(LostCapture()), i).Some?
    ensures i == 24
  {
    hide Bits, LostCapture, SyncBits, FrameIn, BytesAt, M.EncodeTypeB;
    LostStart();
    assert i <= 40;
    if i > 24 {
      NoOtherSync(i - 24);
    }
  }

  lemma {:induction false} LostWindow()
    ensures var w := WindowAt(Bits(LostCapture()), 24);
            w.Some? && |w.value| == 15 && w.value[13..] == [0, 0]
  {
    hide Bits, LostCapture, M.EncodeTypeB;
    var raw := LostCapture();
    LostStart();
    BitsConcat(raw[..3], raw[3..]);
    assert raw == raw[..3] + raw[3..];
    assert Bits(raw)[24..24 + 8 * 15] == Bits(raw[3..]);
    WindowStartsWith(Bits(raw), 24, raw[3..]);
    var w := WindowAt(Bits(raw), 24).value;
    assert w == raw[3..] + w[15..];
    assert raw[3..][13..] == raw[16..];
  }

  lemma {:induction false} FrameInWindow(header: M.LinkHeader, app: seq<Byte>, after: seq<Byte>)
    requires |app| <= 246
    ensures var frame := M.EncodeTypeA(header, app);
            && |frame| >= 2
            && FrameIn(frame + after) == Some(ReturnedA(header, app))
  {
    hide M.EncodeTypeA, M.EncodeBlocks, M.Decode, M.PacketSize, M.Expected, FrameIn, Truncate, Number;
    var frame := M.EncodeTypeA(header, app);
    M.TypeAParts(header, app);
    M.TypeARoundTrip(header, app, after);
    M.TypeAPacketSize(header, app);
    M.PacketSizeOfPrefix(frame, after);
    ExpectedIsOk(header, app);
    FrameInCut(frame + after, frame, M.Expected(M.TypeA, header, app));
    assert frame[..|frame|] == frame;
  }

  lemma {:induction false} FrameInCut(window: seq<Byte>, frame: seq<Byte>, content: M.LinkFrame)
    requires |frame| <= |window| && window[..|frame|] == frame
    requires M.Decode(window) == Ok(content) && content.crcOk
    requires 0 < M.PacketSize(window) <= |frame|
    ensures FrameIn(window) == Some(frame[..M.PacketSize(window)])
  {
    hide M.Decode, M.PacketSize;
    var n := M.PacketSize(window);
    assert window[..n] == window[..|frame|][..n];
  }

  lemma {:induction false} ExpectedIsOk(header: M.LinkHeader, app: seq<Byte>)
    ensures M.Expected(M.TypeA, header, app).crcOk
  {
  }
}
