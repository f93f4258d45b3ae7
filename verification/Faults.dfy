/** simulator/faults.py: rewriting a complete list of ISO-TP frames. The random
    draws of each fault are arguments of the `Fault` value. */
module Faults {
  import opened Bytes
  import opened IsoTp

  datatype Fault =
    | NoFault
    | WrongDid(delta: nat)
    | WrongService
    | ShortPayload(n: nat)
    | WrongPadding
    | DropRandomCf(index: nat)
    | DropLastCf
    | WrongSeq(index: nat)
    | DuplicateCf(index: nat)
    | TruncatedMf
    | WrongLen

  /** The draws are in range for a list of `count` frames. */
  predicate Possible(fault: Fault, count: nat) {
    match fault
    case WrongDid(delta) => 1 <= delta <= 254
    case ShortPayload(n) => 1 <= n <= 3
    case DropRandomCf(i) => count > 1 ==> 1 <= i < count
    case WrongSeq(i) => count > 1 ==> 1 <= i < count
    case DuplicateCf(i) => count > 1 ==> 1 <= i < count
    case _ => true
  }

  /** The fault actually applied: an impossible draw stands for none. */
  function Drawn(fault: Fault, count: nat): (f: Fault)
    ensures Possible(f, count)
  {
    if Possible(fault, count) then fault else NoFault
  }

  /** Faults that need a Consecutive Frame leave a Single Frame alone. */
  predicate NeedsCf(fault: Fault) {
    match fault
    case NoFault | WrongDid(_) | WrongService | ShortPayload(_) | WrongPadding => false
    case _ => true
  }

  function ShiftDid(f: Frame, hi: nat, delta: nat): Frame
    requires hi < 7
  {
    var did := (f[hi] * 256 + f[hi + 1] + delta) % 0x10000;
    f[hi := did / 256][hi + 1 := did % 256]
  }

  function BlankTail(f: Frame, n: nat): Frame
    requires n <= 8
  {
    f[..8 - n] + Repeat(PADDING, n)
  }

  function Repad(b: byte): byte { if b == PADDING then 0xAA else b }

  function RepadAll(s: seq<byte>): (r: seq<byte>)
    ensures |r| == |s| && forall i | 0 <= i < |s| :: r[i] == Repad(s[i])
  {
    seq(|s|, i requires 0 <= i < |s| => Repad(s[i]))
  }

  function BumpSeq(f: Frame): Frame {
    var orig: nat := f[0];
    f[0 := 0x20 + (orig + 1) % 16]
  }

  function WithLength(f: Frame, length: nat): Frame
    requires length <= MAX_PAYLOAD
  {
    f[0 := f[0] / 16 * 16 + length / 256][1 := length % 256]
  }

  function RepadFrames(fs: seq<Frame>): (r: seq<Frame>)
    ensures |r| == |fs| && forall i | 0 <= i < |fs| :: r[i] == RepadAll(fs[i])
  {
    seq(|fs|, i requires 0 <= i < |fs| => RepadAll(fs[i]))
  }

  /** The frame list after a fault. */
  function Apply(fs: seq<Frame>, fault: Fault): (r: seq<Frame>)
    requires fs != [] && Possible(fault, |fs|)
    ensures r != []
  {
    if |fs| == 1 && NeedsCf(fault) then fs
    else
      match fault
      case NoFault => fs
      case WrongDid(delta) => [ShiftDid(fs[0], if FrameType(fs[0]) == 1 then 3 else 2, delta)] + fs[1..]
      case WrongService => [fs[0][(if FrameType(fs[0]) == 1 then 2 else 1) := 0]] + fs[1..]
      case ShortPayload(n) => fs[..|fs| - 1] + [BlankTail(fs[|fs| - 1], n)]
      case WrongPadding => RepadFrames(fs)
      case DropRandomCf(i) => fs[..i] + fs[i + 1..]
      case DropLastCf => fs[..|fs| - 1]
      case WrongSeq(i) => fs[i := BumpSeq(fs[i])]
      case DuplicateCf(i) => fs[..i + 1] + [fs[i]] + fs[i + 1..]
      case TruncatedMf => fs[..1]
      case WrongLen => [WithLength(fs[0], Min(AnnouncedLength(fs[0]) + 1, MAX_PAYLOAD))] + fs[1..]
  }

  // ----- The damage byte by byte ---------------------------------------------

  /** `r` is `fs` after this fault, said of single frames and bytes. */
  predicate Damaged(fs: seq<Frame>, fault: Fault, r: seq<Frame>)
    requires fs != [] && Possible(fault, |fs|)
  {
    if |fs| == 1 && (fault.DropRandomCf? || fault.DropLastCf? || fault.WrongSeq? || fault.DuplicateCf?
                     || fault.TruncatedMf? || fault.WrongLen?)
    then r == fs
    else
      match fault
      case NoFault => r == fs
      case DropRandomCf(i) => |r| == |fs| - 1 && forall j | 0 <= j < |r| :: r[j] == fs[if j < i then j else j + 1]
      case DropLastCf => |r| == |fs| - 1 && forall j | 0 <= j < |r| :: r[j] == fs[j]
      case DuplicateCf(i) => |r| == |fs| + 1 && forall j | 0 <= j < |r| :: r[j] == fs[if j <= i then j else j - 1]
      case TruncatedMf => r == [fs[0]]
      case WrongSeq(i) => |r| == |fs| && forall j | 0 <= j < |r| ::
        r[j][1..] == fs[j][1..] && r[j][0] == if j == i then 0x20 + (fs[j][0] as int + 1) % 16 else fs[j][0]
      case ShortPayload(n) => |r| == |fs| && forall j | 0 <= j < |r| ::
        if j < |fs| - 1 then r[j] == fs[j]
        else forall t | 0 <= t < 8 :: r[j][t] == if t < 8 - n then fs[j][t] else 0xCC
      case WrongPadding => |r| == |fs| && forall j, t | 0 <= j < |r| && 0 <= t < 8 ::
        r[j][t] == if fs[j][t] == 0xCC then 0xAA else fs[j][t]
      case WrongDid(_) | WrongService | WrongLen =>
        |r| == |fs| && r[1..] == fs[1..] && DamagedFirst(fs[0], fault, r[0])
  }

  /** Two bytes of a frame as a number, the high byte first. */
  function Number(f: Frame, at: nat): nat
    requires at < 7
  {
    f[at] as int * 256 + f[at + 1]
  }

  /** The same of a first frame, whose fields stand one byte later than in a single frame. */
  predicate DamagedFirst(f: Frame, fault: Fault, g: Frame)
    requires fault.WrongDid? || fault.WrongService? || fault.WrongLen?
  {
    var at := if f[0] / 16 == 1 then 2 else 1;
    match fault
    case WrongDid(delta) =>
      && Number(g, at + 1) == (Number(f, at + 1) + delta) % 0x10000
      && forall t | 0 <= t < 8 && t != at + 1 && t != at + 2 :: g[t] == f[t]
    case WrongService => g[at] == 0 && forall t | 0 <= t < 8 && t != at :: g[t] == f[t]
    case WrongLen =>
      && g[0] / 16 == f[0] / 16
      && g[0] as int % 16 * 256 + g[1] == Min(f[0] as int % 16 * 256 + f[1] + 1, 0xFFF)
      && forall t | 2 <= t < 8 :: g[t] == f[t]
  }

  lemma FirstDamagedOnce(f: Frame, fault: Fault, a: Frame, b: Frame)
    requires fault.WrongDid? || fault.WrongService? || fault.WrongLen?
    requires DamagedFirst(f, fault, a) && DamagedFirst(f, fault, b)
    ensures a == b
  {
    var at := if f[0] / 16 == 1 then 2 else 1;
    if fault.WrongDid? {
      SameNumber(a[at + 1], a[at + 2], b[at + 1], b[at + 2]);
    } else if fault.WrongLen? {
      SameNumber(a[0] % 16, a[1], b[0] % 16, b[1]);
      assert a[0] == a[0] / 16 * 16 + a[0] % 16 && b[0] == b[0] / 16 * 16 + b[0] % 16;
    }
    SameBytes(a, b);
  }

  lemma SameNumber(h1: byte, l1: byte, h2: byte, l2: byte)
    requires h1 as int * 256 + l1 == h2 as int * 256 + l2
    ensures h1 == h2 && l1 == l2
  {
  }

  lemma SameBytes(a: Frame, b: Frame)
    requires forall t | 0 <= t < 8 :: a[t] == b[t]
    ensures a == b
  {
  }

  lemma FirstIsDamaged(fs: seq<Frame>, fault: Fault)
    requires fs != [] && Possible(fault, |fs|) && !(|fs| == 1 && NeedsCf(fault))
    requires fault.WrongDid? || fault.WrongService? || fault.WrongLen?
    ensures DamagedFirst(fs[0], fault, Apply(fs, fault)[0])
  {
    var f, g := fs[0], Apply(fs, fault)[0];
    if fault.WrongDid? {
      var at := if FrameType(f) == 1 then 3 else 2;
      ShiftedNumber(f, at, fault.delta);
    } else if fault.WrongLen? {
      LengthSet(f, Min(AnnouncedLength(f) + 1, MAX_PAYLOAD));
    }
  }

  lemma ShiftedNumber(f: Frame, at: nat, delta: nat)
    requires at < 7
    ensures Number(ShiftDid(f, at, delta), at) == (Number(f, at) + delta) % 0x10000
    ensures forall t | 0 <= t < 8 && t != at && t != at + 1 :: ShiftDid(f, at, delta)[t] == f[t]
  {
  }

  lemma LengthSet(f: Frame, length: nat)
    requires length <= MAX_PAYLOAD
    ensures var g := WithLength(f, length);
      && g[0] / 16 == f[0] / 16 && g[0] as int % 16 * 256 + g[1] == length
      && forall t | 2 <= t < 8 :: g[t] == f[t]
  {
  }

  lemma DamagedOnce(fs: seq<Frame>, fault: Fault, a: seq<Frame>, b: seq<Frame>)
    requires fs != [] && Possible(fault, |fs|) && Damaged(fs, fault, a) && Damaged(fs, fault, b)
    ensures a == b
  {
    forall j | 0 <= j < |a|
      ensures a[j] == b[j]
    {
      if fault.WrongDid? || fault.WrongService? || fault.WrongLen? {
        if j > 0 {
          assert a[j] == a[1..][j - 1] == b[1..][j - 1] == b[j];
        } else if a != fs || b != fs {
          FirstDamagedOnce(fs[0], fault, a[0], b[0]);
        }
      } else if fault.WrongSeq? {
        assert a[j] == [a[j][0]] + a[j][1..] && b[j] == [b[j][0]] + b[j][1..];
      } else if fault.WrongPadding? || fault.ShortPayload? {
        assert forall t | 0 <= t < 8 :: a[j][t] == b[j][t];
      }
    }
  }

  lemma IsDamaged(fs: seq<Frame>, fault: Fault)
    requires fs != [] && Possible(fault, |fs|)
    ensures Damaged(fs, fault, Apply(fs, fault))
  {
    if fault.WrongDid? || fault.WrongService? || fault.WrongLen? {
      if !(|fs| == 1 && NeedsCf(fault)) {
        FirstIsDamaged(fs, fault);
      }
    } else {
      RestIsDamaged(fs, fault);
    }
  }

  lemma RestIsDamaged(fs: seq<Frame>, fault: Fault)
    requires fs != [] && Possible(fault, |fs|) && !fault.WrongDid? && !fault.WrongService? && !fault.WrongLen?
    ensures Damaged(fs, fault, Apply(fs, fault))
  {
  }

  /** The injector does exactly this damage. */
  lemma DamagedIff(fs: seq<Frame>, fault: Fault, r: seq<Frame>)
    requires fs != [] && Possible(fault, |fs|)
    ensures r == Apply(fs, fault) <==> Damaged(fs, fault, r)
  {
    IsDamaged(fs, fault);
    if Damaged(fs, fault, r) {
      DamagedOnce(fs, fault, r, Apply(fs, fault));
    }
  }

  // ----- The in-place edits of the source ------------------------------------

  /** The backwards loop over the last bytes of the last frame. */
  method ShortenLast(frames: seq<Frame>, n: nat) returns (result: seq<Frame>)
    requires frames != [] && 1 <= n <= 3
    ensures result == Apply(frames, ShortPayload(n))
  {
    var f := frames[|frames| - 1];
    var last := new byte[8](i requires 0 <= i < 8 => f[i]);
    var i := 7;
    while i > 7 - n
      invariant 7 - n <= i <= 7
      invariant last[..] == f[..i + 1] + Repeat(PADDING, 7 - i)
    {
      last[i] := 0xCC;
      i := i - 1;
    }
    result := frames[|frames| - 1 := last[..]];
  }

  /** The two nested loops over all bytes of all frames. */
  method ReplacePadding(frames: seq<Frame>) returns (result: seq<Frame>)
    requires frames != []
    ensures result == Apply(frames, WrongPadding)
  {
    result := [];
    for k := 0 to |frames|
      invariant |result| == k
      invariant forall j | 0 <= j < k :: result[j] == RepadAll(frames[j])
    {
      var frame := frames[k];
      var f := new byte[8](i requires 0 <= i < 8 => frame[i]);
      for i := 0 to 8
        invariant forall j | 0 <= j < i :: f[j] == Repad(frame[j])
        invariant forall j | i <= j < 8 :: f[j] == frame[j]
      {
        if f[i] == 0xCC {
          f[i] := 0xAA;
        }
      }
      assert f[..] == RepadAll(frame);
      result := result + [f[..]];
    }
  }

  /** `_wrong_did`: two bytes of a mutable copy of frame 0. */
  method CorruptDid(frames: seq<Frame>, delta: nat) returns (result: seq<Frame>)
    requires frames != [] && 1 <= delta <= 254
    ensures result == Apply(frames, WrongDid(delta))
  {
    var first := frames[0];
    var f := new byte[8](i requires 0 <= i < 8 => first[i]);
    var hi, lo := 2, 3;
    if f[0] / 16 == 1 {
      hi, lo := 3, 4;
    }
    var high: nat := f[hi];
    var did := (high * 256 + f[lo] + delta) % 0x10000;
    assert did / 256 < 256;
    f[hi] := (did / 256) % 256;
    f[lo] := did % 256;
    assert f[..] == first[hi := did / 256][lo := did % 256];
    result := [f[..]] + frames[1..];
  }

  /** `_wrong_len`: the 12-bit length field of a mutable copy of frame 0. */
  method InflateLength(frames: seq<Frame>) returns (result: seq<Frame>)
    requires frames != []
    ensures result == Apply(frames, WrongLen)
  {
    if |frames| < 2 {
      return frames;
    }
    var first := frames[0];
    var f := new byte[8](i requires 0 <= i < 8 => first[i]);
    var nibble: nat := f[0] % 16;
    var length := Min(nibble * 256 + f[1] + 1, 0xFFF);
    f[0] := f[0] / 16 * 16 + (length / 256) % 16;
    f[1] := length % 256;
    assert f[..] == WithLength(first, length);
    result := [f[..]] + frames[1..];
  }

  /** `_wrong_seq`: byte 0 of a mutable copy of one Consecutive Frame. */
  method CorruptSeq(frames: seq<Frame>, index: nat) returns (result: seq<Frame>)
    requires frames != [] && Possible(WrongSeq(index), |frames|)
    ensures result == Apply(frames, WrongSeq(index))
  {
    if |frames| < 2 {
      return frames;
    }
    var cf := frames[index];
    var f := new byte[8](i requires 0 <= i < 8 => cf[i]);
    var orig: nat := f[0];
    f[0] := 0x20 + (orig + 1) % 16;
    assert f[..] == BumpSeq(cf);
    result := frames[index := f[..]];
  }

  /** `_wrong_service`: one byte of a mutable copy of frame 0. */
  method CorruptService(frames: seq<Frame>) returns (result: seq<Frame>)
    requires frames != []
    ensures result == Apply(frames, WrongService)
  {
    var first := frames[0];
    var f := new byte[8](i requires 0 <= i < 8 => first[i]);
    var pos := if f[0] / 16 == 1 then 2 else 1;
    f[pos] := 0;
    assert f[..] == first[pos := 0];
    result := [f[..]] + frames[1..];
  }

  /** `_apply`: dispatch on the fault that was drawn. */
  method Inject(frames: seq<Frame>, fault: Fault) returns (result: seq<Frame>)
    requires frames != [] && Possible(fault, |frames|)
    ensures result == Apply(frames, fault)
  {
    match fault
    case NoFault => result := frames;
    case WrongDid(delta) => result := CorruptDid(frames, delta);
    case WrongService => result := CorruptService(frames);
    case ShortPayload(n) => result := ShortenLast(frames, n);
    case WrongPadding => result := ReplacePadding(frames);
    case DropRandomCf(i) => result := if |frames| < 2 then frames else frames[..i] + frames[i + 1..];
    case DropLastCf => result := if |frames| < 2 then frames else frames[..|frames| - 1];
    case WrongSeq(i) => result := CorruptSeq(frames, i);
    case DuplicateCf(i) => result := if |frames| < 2 then frames else frames[..i + 1] + [frames[i]] + frames[i + 1..];
    case TruncatedMf => result := frames[..1];
    case WrongLen => result := InflateLength(frames);
  }
}
