/** Frames of the serial protocol and the one-shot reading of a byte stream (wifi/system.c:100-153, wifi/mcu_api.c:490-528). */
module SerialFrames {
  import opened Words

  const PROTOCOL_HEAD := 7
  const DATA_START := 6
  const CAPACITY := PROTOCOL_HEAD + 4096

  function Sum(s: seq<byte>): nat {
    if s == [] then 0 else Sum(s[..|s| - 1]) + s[|s| - 1]
  }

  function CheckSum(s: seq<byte>): byte {
    Sum(s) % 256
  }

  /** The checksum is the sum of the bytes modulo 256, from zero on, wherever the bytes are split. */
  lemma CheckSumLaws(s: seq<byte>, b: byte)
    ensures CheckSum([]) == 0 && CheckSum([b]) == b
    ensures CheckSum(s + [b]) == (CheckSum(s) + b) % 256
  {
    assert (s + [b])[..|s|] == s && [b][..0] == [];
    ModAdd(Sum(s), b);
  }

  lemma CheckSumAppend(a: seq<byte>, b: seq<byte>)
    ensures CheckSum(a + b) == (CheckSum(a) + CheckSum(b)) % 256
  {
    hide Sum;
    SumAppend(a, b);
    ModAdd(Sum(a), Sum(b));
  }

  lemma ModAdd(x: nat, y: nat)
    ensures (x + y) % 256 == (x % 256 + y % 256) % 256
  {
    var q, r := x / 256 + y / 256, x % 256 + y % 256;
    assert x + y == 256 * q + r;
    if r >= 256 {
      assert x + y == 256 * (q + 1) + (r - 256);
    }
  }

  lemma {:induction false} SumAppend(a: seq<byte>, b: seq<byte>)
    ensures Sum(a + b) == Sum(a) + Sum(b)
    decreases |b|
  {
    if b == [] {
      assert a + b == a;
    } else {
      assert (a + b)[..|a + b| - 1] == a + b[..|b| - 1];
      SumAppend(a, b[..|b| - 1]);
    }
  }

  method GetCheckSum(pack: array<byte>, from: nat, packLen: nat) returns (checkSum: byte)
    requires from + packLen <= pack.Length
    ensures checkSum == CheckSum(pack[from..from + packLen])
  {
    checkSum := 0;
    var i := 0;
    while i < packLen
      invariant i <= packLen && checkSum == Sum(pack[from..from + i]) % 256
    {
      assert pack[from..from + i + 1][..i] == pack[from..from + i];
      checkSum := (checkSum + pack[from + i]) % 256;
      i := i + 1;
    }
  }

  // ----- Building a frame -----

  datatype Frame = Frame(version: byte, cmd: byte, payload: seq<byte>)

  function Header(f: Frame): seq<byte>
    requires |f.payload| < 0x10000
  {
    [0x55, 0xAA, f.version, f.cmd, |f.payload| / 256, |f.payload| % 256]
  }

  function FrameBytes(f: Frame): (s: seq<byte>)
    requires |f.payload| < 0x10000
    ensures |s| == |f.payload| + PROTOCOL_HEAD
  {
    var body := Header(f) + f.payload;
    body + [CheckSum(body)]
  }

  // ----- Reading a stream -----

  /** What the handler is called with: the command byte and the bytes of the frame. */
  datatype Dispatch = Dispatch(cmd: byte, frame: seq<byte>)

  datatype Verdict = Wait | SkipBy(n: nat) | Accept(len: nat)

  /** The frame length as the 16-bit sum the parser computes: it wraps for length fields from 0xFFF9 on. */
  function FrameLength(s: seq<byte>): nat
    requires |s| >= PROTOCOL_HEAD
  {
    (s[4] * 0x100 + s[5] + PROTOCOL_HEAD) % 0x10000
  }

  /** The decision of one round of the parser. (For a length of zero the C code has no defined answer.) */
  function Inspect(s: seq<byte>): (v: Verdict)
    requires |s| >= PROTOCOL_HEAD
    ensures v.SkipBy? ==> 1 <= v.n <= |s|
    ensures v.Accept? ==> 1 <= v.len <= |s| && v.len == FrameLength(s)
  {
    if s[0] != 0x55 || s[1] != 0xAA then SkipBy(1)
    else
      var len := FrameLength(s);
      if len > CAPACITY then SkipBy(3)
      else if |s| < len then Wait
      else if len == 0 || CheckSum(s[..len - 1]) != s[len - 1] then SkipBy(3)
      else Accept(len)
  }

  /** The frames found in a stream, and the bytes that are kept for later. */
  function Scan(s: seq<byte>): (r: (seq<Dispatch>, seq<byte>))
    ensures |r.1| <= |s|
  {
    if |s| < PROTOCOL_HEAD then ([], s)
    else
      match Inspect(s)
      case Wait => ([], s)
      case SkipBy(n) => Scan(s[n..])
      case Accept(len) => var r := Scan(s[len..]); ([Dispatch(s[3], s[..len])] + r.0, r.1)
  }

  /** The scan never meets a header announcing the one length, 0xFFF9, whose 16-bit sum is zero: at such a header the
      C code reads outside its buffer. */
  predicate Sane(s: seq<byte>) {
    |s| < PROTOCOL_HEAD ||
    (&& (s[0] == 0x55 && s[1] == 0xAA ==> FrameLength(s) != 0)
     && match Inspect(s)
        case Wait => true
        case SkipBy(n) => Sane(s[n..])
        case Accept(len) => Sane(s[len..]))
  }

  /** What a sender can check on its bytes: no header with the length field 0xFFF9 stands anywhere. */
  predicate NoEmptyLength(s: seq<byte>) {
    forall i | 0 <= i < |s| - 5 :: !(s[i] == 0x55 && s[i + 1] == 0xAA && s[i + 4] == 0xFF && s[i + 5] == 0xF9)
  }

  lemma {:induction false} NoEmptyLengthSane(s: seq<byte>)
    requires NoEmptyLength(s)
    ensures Sane(s)
  {
    hide CheckSum;
    if |s| >= PROTOCOL_HEAD {
      match Inspect(s)
      case Wait =>
      case SkipBy(n) => NoEmptyLengthSane(s[n..]);
      case Accept(len) => NoEmptyLengthSane(s[len..]);
    }
  }

  /** Two frames by their bytes: the heartbeat of the Wi-Fi module, which is accepted, and the acknowledgement of a package. */
  lemma KnownFrames(rest: seq<byte>)
    ensures Inspect([0x55, 0xAA, 0, 0, 0, 0, 0xFF] + rest) == Accept(7)
    ensures FrameBytes(Frame(0, 0x1E, [])) == [0x55, 0xAA, 0, 0x1E, 0, 0, 0x1D]
  {
    var f := [0x55, 0xAA, 0, 0, 0, 0];
    var s := f + [0xFF] + rest;
    assert s == [0x55, 0xAA, 0, 0, 0, 0, 0xFF] + rest && s[..6] == f;
    assert f[..5][..4] == f[..4] && f[..4][..3] == f[..3] && f[..3][..2] == f[..2] && f[..2][..1] == f[..1] && f[..1][..0] == [];
    assert Sum(f[..1]) == 0x55 && Sum(f[..2]) == 0xFF && Sum(f[..3]) == 0xFF && Sum(f[..4]) == 0xFF && Sum(f[..5]) == 0xFF;
    var g := [0x55, 0xAA, 0, 0x1E, 0, 0];
    assert g[..5][..4] == g[..4] && g[..4][..3] == g[..3] && g[..3] == f[..3];
    assert Sum(g[..4]) == 0x11D && Sum(g[..5]) == 0x11D && Sum(g) == 0x11D;
    assert Header(Frame(0, 0x1E, [])) + [] == g;
  }

  /** A frame may carry up to 4096 bytes: behind a marker, a longer length field is skipped, a frame that is not there to its
      end is waited for, and a complete one is accepted by the sum of its bytes. */
  lemma LengthLimit(s: seq<byte>)
    requires |s| >= 7 && s[0] == 0x55 && s[1] == 0xAA && s[4] as int * 0x100 + s[5] < 0xFFF9
    ensures var n: int := s[4] as int * 0x100 + s[5];
      Inspect(s) ==
        if n > 4096 then SkipBy(3)
        else if |s| < n + 7 then Wait
        else if CheckSum(s[..n + 6]) == s[n + 6] then Accept(n + 7) else SkipBy(3)
  {
    hide CheckSum;
  }

  lemma ScanStep(s: seq<byte>)
    requires |s| >= PROTOCOL_HEAD
    ensures Inspect(s).SkipBy? ==> Scan(s) == Scan(s[Inspect(s).n..])
    ensures Inspect(s).Accept? ==>
      var len := Inspect(s).len; Scan(s) == ([Dispatch(s[3], s[..len])] + Scan(s[len..]).0, Scan(s[len..]).1)
  {
  }

  /** The rounds of the parser, branch by branch. */
  lemma ScanRound(s: seq<byte>)
    requires |s| >= PROTOCOL_HEAD
    ensures s[0] != 0x55 || s[1] != 0xAA ==> Scan(s) == Scan(s[1..])
    ensures s[0] == 0x55 && s[1] == 0xAA && FrameLength(s) > 0 ==>
      var len := FrameLength(s);
      Scan(s) ==
        if len > CAPACITY then Scan(s[3..])
        else if |s| < len then ([], s)
        else if CheckSum(s[..len - 1]) != s[len - 1] then Scan(s[3..])
        else ([Dispatch(s[3], s[..len])] + Scan(s[len..]).0, Scan(s[len..]).1)
  {
    hide CheckSum, FrameLength;
  }

  lemma SaneRound(s: seq<byte>)
    requires |s| >= PROTOCOL_HEAD && Sane(s)
    ensures s[0] != 0x55 || s[1] != 0xAA ==> Sane(s[1..])
    ensures s[0] == 0x55 && s[1] == 0xAA ==>
      var len := FrameLength(s);
      && len > 0
      && (len > CAPACITY ==> Sane(s[3..]))
      && (len <= CAPACITY && len <= |s| ==> if CheckSum(s[..len - 1]) != s[len - 1] then Sane(s[3..]) else Sane(s[len..]))
  {
    hide CheckSum, FrameLength;
  }

  /** Too few bytes, or the beginning of a frame: everything is left over. */
  lemma ScanWaits(s: seq<byte>)
    requires |s| < PROTOCOL_HEAD || Inspect(s).Wait?
    ensures Scan(s) == ([], s)
  {
  }

  /** What is kept is shorter than the buffer, so that there is always room for more. */
  lemma {:induction false} LeftoverFits(s: seq<byte>)
    ensures |Scan(s).1| < CAPACITY
  {
    if |s| >= PROTOCOL_HEAD {
      match Inspect(s)
      case Wait =>
      case SkipBy(n) => LeftoverFits(s[n..]);
      case Accept(len) => LeftoverFits(s[len..]);
    }
  }

  // ----- Chunks -----

  /** A verdict other than waiting does not depend on what follows. */
  lemma InspectExtend(s: seq<byte>, t: seq<byte>)
    requires |s| >= PROTOCOL_HEAD && !Inspect(s).Wait?
    ensures Inspect(s + t) == Inspect(s)
  {
    var len := FrameLength(s);
    if 1 <= len <= |s| {
      assert (s + t)[..len - 1] == s[..len - 1];
    }
  }

  /** Scanning a stream in two pieces, keeping the leftover between them, finds the same frames. */
  lemma {:induction false} ScanAppend(a: seq<byte>, b: seq<byte>)
    ensures var first := Scan(a); var second := Scan(first.1 + b);
            Scan(a + b) == (first.0 + second.0, second.1)
    decreases |a|
  {
    hide Inspect, Scan;
    if |a| >= PROTOCOL_HEAD && !Inspect(a).Wait? {
      InspectExtend(a, b);
      ScanStep(a);
      ScanStep(a + b);
      var n := if Inspect(a).SkipBy? then Inspect(a).n else Inspect(a).len;
      assert (a + b)[n..] == a[n..] + b;
      ScanAppend(a[n..], b);
      if Inspect(a).Accept? {
        assert (a + b)[..n] == a[..n];
        Append3([Dispatch(a[3], a[..n])], Scan(a[n..]).0, Scan(Scan(a[n..]).1 + b).0);
      }
    } else {
      ScanWaits(a);
      Append3([], [], Scan(a + b).0);
    }
  }

  lemma Append3<T>(a: seq<T>, b: seq<T>, c: seq<T>)
    ensures (a + b) + c == a + (b + c) && [] + c == c
  {
  }

  /** A stream is sane exactly when its first piece is, and its second behind the leftover of the first. */
  lemma {:induction false} SaneAppend(a: seq<byte>, b: seq<byte>)
    ensures Sane(a + b) <==> Sane(a) && Sane(Scan(a).1 + b)
    decreases |a|
  {
    hide Inspect, FrameLength;
    if |a| >= PROTOCOL_HEAD {
      LengthExtend(a, b);
      if !Inspect(a).Wait? {
        InspectExtend(a, b);
        var n := if Inspect(a).SkipBy? then Inspect(a).n else Inspect(a).len;
        assert (a + b)[n..] == a[n..] + b;
        SaneAppend(a[n..], b);
      }
    }
  }

  lemma LengthExtend(a: seq<byte>, b: seq<byte>)
    requires |a| >= PROTOCOL_HEAD
    ensures FrameLength(a + b) == FrameLength(a) && (a + b)[0] == a[0] && (a + b)[1] == a[1]
    ensures Inspect(a).Wait? ==> a[0] == 0x55 && a[1] == 0xAA && FrameLength(a) > |a|
  {
  }

  // ----- Frames between junk -----

  lemma AcceptFrame(f: Frame, rest: seq<byte>)
    requires |f.payload| <= CAPACITY - PROTOCOL_HEAD
    ensures Inspect(FrameBytes(f) + rest) == Accept(|FrameBytes(f)|)
    ensures Sane(rest) ==> Sane(FrameBytes(f) + rest)
  {
    var s, len := FrameBytes(f), |FrameBytes(f)|;
    assert (s + rest)[..len - 1] == Header(f) + f.payload;
    assert FrameLength(s + rest) == len && (s + rest)[len..] == rest;
  }

  predicate NoHeader(junk: seq<byte>) {
    forall i | 0 <= i < |junk| - 1 :: !(junk[i] == 0x55 && junk[i + 1] == 0xAA)
  }

  lemma {:induction false} SkipJunk(junk: seq<byte>, rest: seq<byte>)
    requires NoHeader(junk) && |rest| >= PROTOCOL_HEAD && rest[0] == 0x55
    ensures Scan(junk + rest) == Scan(rest) && (Sane(rest) ==> Sane(junk + rest))
  {
    if junk == [] {
      assert junk + rest == rest;
    } else {
      var s := junk + rest;
      assert s[1] == if |junk| > 1 then junk[1] else 0x55;
      assert Inspect(s) == SkipBy(1);
      assert s[1..] == junk[1..] + rest;
      SkipJunk(junk[1..], rest);
    }
  }

  datatype Piece = Piece(junk: seq<byte>, frame: Frame)

  predicate Sendable(p: Piece) {
    NoHeader(p.junk) && |p.frame.payload| <= CAPACITY - PROTOCOL_HEAD
  }

  function Stream(pieces: seq<Piece>): seq<byte>
    requires forall i | 0 <= i < |pieces| :: Sendable(pieces[i])
  {
    if pieces == [] then []
    else
      assert Sendable(pieces[0]);
      pieces[0].junk + FrameBytes(pieces[0].frame) + Stream(pieces[1..])
  }

  function Received(pieces: seq<Piece>): seq<Dispatch>
    requires forall i | 0 <= i < |pieces| :: Sendable(pieces[i])
  {
    if pieces == [] then []
    else
      assert Sendable(pieces[0]);
      [Dispatch(pieces[0].frame.cmd, FrameBytes(pieces[0].frame))] + Received(pieces[1..])
  }

  /** Every frame the writer built is dispatched once, in order, whatever junk without a header lies between the frames. */
  lemma {:induction false} ScanStream(pieces: seq<Piece>, tail: seq<byte>)
    requires forall i | 0 <= i < |pieces| :: Sendable(pieces[i])
    ensures Scan(Stream(pieces) + tail) == (Received(pieces) + Scan(tail).0, Scan(tail).1)
    ensures Sane(tail) ==> Sane(Stream(pieces) + tail)
  {
    hide FrameBytes, Inspect, Scan, Sane;
    if pieces == [] {
      assert Stream(pieces) + tail == tail;
      assert Received(pieces) + Scan(tail).0 == Scan(tail).0;
    } else {
      StreamFirst(pieces, tail);
      hide Stream;
      var p, more := pieces[0], Stream(pieces[1..]) + tail;
      var f := FrameBytes(p.frame);
      var d := [Dispatch(p.frame.cmd, f)];
      FrameStart(p.frame);
      assert (f + more)[|f|..] == more && (f + more)[..|f|] == f;
      SkipJunk(p.junk, f + more);
      AcceptFrame(p.frame, more);
      ScanStep(f + more);
      ScanStream(pieces[1..], tail);
      assert d + (Received(pieces[1..]) + Scan(tail).0) == (d + Received(pieces[1..])) + Scan(tail).0;
    }
  }

  lemma StreamFirst(pieces: seq<Piece>, tail: seq<byte>)
    requires pieces != [] && forall i | 0 <= i < |pieces| :: Sendable(pieces[i])
    ensures Sendable(pieces[0])
    ensures Stream(pieces) + tail == pieces[0].junk + (FrameBytes(pieces[0].frame) + (Stream(pieces[1..]) + tail))
  {
    hide FrameBytes;
    assert Sendable(pieces[0]);
    Regroup(pieces[0].junk, FrameBytes(pieces[0].frame), Stream(pieces[1..]), tail);
  }

  lemma Regroup<T>(a: seq<T>, b: seq<T>, c: seq<T>, d: seq<T>)
    ensures a + b + c + d == a + (b + (c + d))
  {
  }

  /** A frame carries its payload between the header and the checksum. */
  lemma PayloadOfFrame(f: Frame)
    requires |f.payload| < 0x10000
    ensures FrameBytes(f)[DATA_START..|FrameBytes(f)| - 1] == f.payload
    ensures FrameBytes(f)[2] == f.version && FrameBytes(f)[3] == f.cmd
  {
  }

  // ----- Damaged frames -----

  lemma {:induction false} SumUpdate(s: seq<byte>, i: nat, b: byte)
    requires i < |s|
    ensures Sum(s[i := b]) == Sum(s) - s[i] + b
  {
    var n := |s| - 1;
    if i == n {
      assert s[i := b][..n] == s[..n];
    } else {
      assert s[i := b][..n] == s[..n][i := b];
      SumUpdate(s[..n], i, b);
    }
  }

  /** Changing one byte of a frame, the checksum included, makes its checksum test fail. */
  lemma ChecksumDetects(f: Frame, i: nat, b: byte)
    requires |f.payload| < 0x10000 && i < |FrameBytes(f)| && b != FrameBytes(f)[i]
    ensures var s := FrameBytes(f)[i := b]; CheckSum(s[..|s| - 1]) != s[|s| - 1]
  {
    var s := FrameBytes(f);
    var n := |s| - 1;
    assert s[..n] == Header(f) + f.payload;
    if i < n {
      assert s[i := b][..n] == s[..n][i := b];
      SumUpdate(s[..n], i, b);
    } else {
      assert s[i := b][..n] == s[..n];
    }
  }

  /** A frame damaged in one byte outside its marker and length costs only itself: it is not dispatched, and if no
      header shows up inside what is left of it, the next frame is found. */
  lemma DamagedFrame(f: Frame, i: nat, b: byte, next: Frame, rest: seq<byte>)
    requires |f.payload| <= CAPACITY - PROTOCOL_HEAD && |next.payload| <= CAPACITY - PROTOCOL_HEAD
    requires (i == 2 || i == 3 || DATA_START <= i < |FrameBytes(f)|) && b != FrameBytes(f)[i]
    ensures var s := FrameBytes(f)[i := b];
      && Inspect(s + rest) == SkipBy(3)
      && (NoHeader(s[3..]) ==>
            Scan(s + (FrameBytes(next) + rest))
              == ([Dispatch(next.cmd, FrameBytes(next))] + Scan(rest).0, Scan(rest).1))
  {
    hide Inspect, Scan, CheckSum;
    var s := FrameBytes(f)[i := b];
    ChecksumDetects(f, i, b);
    hide NoHeader;
    DamagedVerdict(s, rest);
    DamagedVerdict(s, FrameBytes(next) + rest);
    hide FrameBytes;
    if NoHeader(s[3..]) {
      FrameStart(next);
      AcceptFrame(next, rest);
      BehindDamage(s, FrameBytes(next), rest);
    }
  }

  lemma BehindDamage(s: seq<byte>, g: seq<byte>, rest: seq<byte>)
    requires |s| >= PROTOCOL_HEAD && NoHeader(s[3..]) && Inspect(s + (g + rest)) == SkipBy(3)
    requires |g| >= PROTOCOL_HEAD && g[0] == 0x55 && g[1] == 0xAA && Inspect(g + rest) == Accept(|g|)
    ensures Scan(s + (g + rest)) == ([Dispatch(g[3], g)] + Scan(rest).0, Scan(rest).1)
  {
    hide Inspect, Scan, NoHeader;
    ScanStep(s + (g + rest));
    assert (s + (g + rest))[3..] == s[3..] + (g + rest);
    SkipJunk(s[3..], g + rest);
    ScanStep(g + rest);
    assert (g + rest)[|g|..] == rest && (g + rest)[..|g|] == g;
  }

  lemma FrameStart(f: Frame)
    requires |f.payload| < 0x10000
    ensures FrameBytes(f)[0] == 0x55 && FrameBytes(f)[1] == 0xAA && FrameBytes(f)[3] == f.cmd
  {
  }

  lemma DamagedVerdict(s: seq<byte>, rest: seq<byte>)
    requires PROTOCOL_HEAD <= |s| <= CAPACITY && s[0] == 0x55 && s[1] == 0xAA
    requires s[4] * 0x100 + s[5] + PROTOCOL_HEAD == |s| && CheckSum(s[..|s| - 1]) != s[|s| - 1]
    ensures Inspect(s + rest) == SkipBy(3)
  {
    assert (s + rest)[..|s| - 1] == s[..|s| - 1];
  }
}
