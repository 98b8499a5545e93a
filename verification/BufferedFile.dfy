/** A file read through a ring buffer that keeps the last bytes so that the reader can step back. */
module BufferedFile {
  import opened Common
  import opened Powers

  const TWO_32: nat := 0x1_0000_0000
  const TWO_64: nat := 0x1_0000_0000_0000_0000

  /** Done, or the exception that left the call. */
  datatype Outcome = Done | PastLimit | LargerThanBuffer | SourceFailed

  /** Where SetPos leaves the read position, in 64-bit unsigned arithmetic. */
  function Landing(srcPos: nat, rewind: nat, p: nat): nat
    requires srcPos < TWO_64 && rewind < TWO_64
  {
    if (p + rewind) % TWO_64 < srcPos then (srcPos - rewind + TWO_64) % TWO_64
    else if p > srcPos then srcPos
    else p
  }

  /** The one way for SetPos to leave the window: the sum wraps around while the window still starts before the file. */
  predicate WrapsOut(srcPos: nat, rewind: nat, p: nat) {
    p + rewind >= TWO_64 && p + rewind - TWO_64 < srcPos < rewind
  }

  /** SetPos lands between `rewind` bytes before the source position and the source position, unless it wraps out. */
  lemma LandsInWindow(srcPos: nat, rewind: nat, p: nat)
    requires srcPos < 0x8000_0000_0000_0000 && rewind < TWO_32 && p < TWO_64
    ensures srcPos - rewind <= Landing(srcPos, rewind, p) <= srcPos <==> !WrapsOut(srcPos, rewind, p)
  {
    if p + rewind >= TWO_64 {
      assert (p + rewind) % TWO_64 == p + rewind - TWO_64;
    }
  }

  /** How far two positions are apart. */
  function Distance(p: int, q: int): nat { if p < q then q - p else p - q }

  /**
   Unless the sum wraps around, SetPos goes to that position of the window, from the start of the file on, that is nearest
   to the one asked for. When it wraps, the result is the source position or, wrapping out, a place before the window.
   */
  lemma NearestInWindow(srcPos: nat, rewind: nat, p: nat)
    requires srcPos < 0x8000_0000_0000_0000 && rewind < TWO_32 && p < TWO_64
    ensures var r := Landing(srcPos, rewind, p);
            if p + rewind < TWO_64 then
              srcPos - rewind <= r <= srcPos
              && forall q: nat :: srcPos - rewind <= q <= srcPos ==> Distance(r, p) <= Distance(q, p)
            else if p + rewind - TWO_64 < srcPos then r == (srcPos - rewind) % TWO_64
            else r == srcPos
  {
    Wrapped(p + rewind);
    Wrapped(srcPos + TWO_64 - rewind);
  }

  /** A position is reached exactly when it lies in the window below the source position, not below the read position. */
  lemma ReachedIff(srcPos: nat, rewind: nat, p: nat)
    requires srcPos < 0x8000_0000_0000_0000 && rewind < TWO_32 && p <= srcPos
    ensures Landing(srcPos, rewind, p) == p <==> p + rewind >= srcPos
  {
  }

  /** A 64-bit sum wraps around at most once. */
  lemma Wrapped(x: nat)
    requires x < 2 * TWO_64
    ensures x % TWO_64 == if x < TWO_64 then x else x - TWO_64
  {
  }

  /** Offsets into the ring: going forward within one lap, and going back. */
  lemma RingIndex(p: nat, i: nat, size: nat)
    requires size > 0 && p % size + i < size
    ensures (p + i) % size == p % size + i
  {
    DivMod(p, size);
    DivUnique(p + i, size, p / size, p % size + i);
  }

  lemma RingBack(p: nat, d: nat, size: nat)
    requires 0 < d <= size && d <= p
    ensures (p - d) % size == if p % size >= d then p % size - d else p % size - d + size
  {
    DivMod(p, size);
    if p % size >= d {
      DivUnique(p - d, size, p / size, p % size - d);
    } else {
      MulDist(p / size, 1, size);
      DivUnique(p - d, size, p / size - 1, p % size - d + size);
    }
  }

  lemma SliceJoin(s: seq<Byte>, a: nat, b: nat, c: nat)
    requires a <= b <= c <= |s|
    ensures s[a..b] + s[b..c] == s[a..c]
  {
  }

  /** Looking at one more byte. */
  lemma FirstMatch(s: seq<Byte>, a: nat, b: nat, ch: Byte)
    requires a <= b < |s| && ch !in s[a..b]
    ensures if s[b] == ch then ch in s[a..] else ch !in s[a..b + 1]
  {
    if s[b] == ch {
      assert s[a..][b - a] == ch;
    } else {
      assert s[a..b + 1] == s[a..b] + [s[b]];
    }
  }

  class CBufferedFile {
    /** The source file, and how many bytes the device is ready to deliver at each position; none is a failure. */
    const file: seq<Byte>
    const device: nat -> nat

    const vchBuf: array<Byte>
    const rewind: nat
    var srcPos: nat
    var readPos: nat
    var readLimit: nat
    var failed: bool

    /** The ring holds the last `vchBuf.Length` bytes taken from the source. */
    ghost predicate Ring()
      reads this`srcPos, vchBuf
    {
      && vchBuf.Length > 0 && srcPos <= |file|
      && forall k: nat :: srcPos - vchBuf.Length <= k < srcPos ==> vchBuf[k % vchBuf.Length] == file[k]
    }

    ghost predicate Valid()
      reads this, vchBuf
    {
      && rewind < vchBuf.Length < TWO_32 && |file| < 0x8000_0000_0000_0000
      && readPos <= srcPos <= |file| && readLimit < TWO_64
      && (srcPos - readPos <= rewind || srcPos - readPos <= vchBuf.Length - rewind)
      && Ring()
    }

    /** The device never fails. */
    ghost predicate Working() { forall p: nat :: device(p) > 0 }

    constructor (file: seq<Byte>, device: nat -> nat, size: nat, rewind: nat)
      requires rewind < size < TWO_32 && |file| < 0x8000_0000_0000_0000
      ensures Valid() && fresh(vchBuf) && vchBuf.Length == size && this.rewind == rewind && this.file == file
      ensures this.device == device && readPos == srcPos == 0 && readLimit == TWO_64 - 1 && !failed
    {
      this.file, this.device, this.rewind := file, device, rewind;
      vchBuf := new Byte[size](_ => 0);
      srcPos, readPos, readLimit, failed := 0, 0, TWO_64 - 1, false;
    }

    /** fread: what the device delivers of the bytes that are left. */
    method Fread(want: nat) returns (got: nat)
      requires want > 0 && srcPos <= |file|
      ensures got == Min(want, Min(|file| - srcPos, device(srcPos)))
    {
      got := Min(want, Min(|file| - srcPos, device(srcPos)));
    }

    /** How many bytes a refill adds when everything has been read. */
    ghost function FillSize(): nat
      reads this`srcPos
      requires srcPos <= |file| && rewind < vchBuf.Length
    {
      Min(Min(vchBuf.Length - srcPos % vchBuf.Length, vchBuf.Length - rewind), Min(|file| - srcPos, device(srcPos)))
    }

    /** A fill takes as many bytes as there is room for in one piece beside those kept, and the device has ready. */
    lemma FillGreatest(n: nat)
      requires srcPos <= |file| && rewind < vchBuf.Length
      ensures n <= FillSize() <==>
        srcPos % vchBuf.Length + n <= vchBuf.Length && rewind + n <= vchBuf.Length && srcPos + n <= |file| && n <= device(srcPos)
    {
    }

    /** Refills the ring; false when the read failed and the exception leaves the caller. */
    method Fill() returns (ok: bool)
      requires Valid() && readPos == srcPos
      modifies this`srcPos, this`failed, vchBuf
      ensures Valid() && (old(failed) ==> failed)
      ensures srcPos == old(srcPos) + old(FillSize()) && (ok <==> old(srcPos) < srcPos)
      ensures ok ==> failed == old(failed)
      ensures !ok ==> failed && (!Working() || srcPos == |file|)
    {
      hide Ring, Working, FillSize;
      DeviceReady();
      FillParts();
      var size := vchBuf.Length;
      DivMod(srcPos, size);
      var pos := srcPos % size;
      var readNow := size - pos;
      SmallMod(size - rewind, TWO_32);
      var avail := (size - (srcPos - readPos) - rewind) % TWO_32;
      assert avail == size - rewind;
      if avail < readNow { readNow := avail; }
      var got := Fread(readNow);
      assert got == FillSize();
      if got == 0 {
        failed := true;
        return false;
      }
      Deliver(pos, got);
      ok := true;
    }

    lemma FillParts()
      requires srcPos <= |file| && rewind < vchBuf.Length
      ensures var room := Min(vchBuf.Length - srcPos % vchBuf.Length, vchBuf.Length - rewind);
              FillSize() == Min(room, Min(|file| - srcPos, device(srcPos)))
    {
    }

    lemma DeviceReady()
      ensures Working() ==> device(srcPos) > 0
    {
    }

    /** What fread does to the ring. */
    method Deliver(pos: nat, got: nat)
      requires Ring() && pos == srcPos % vchBuf.Length && pos + got <= vchBuf.Length && srcPos + got <= |file|
      modifies this`srcPos, vchBuf
      ensures Ring() && srcPos == old(srcPos) + got
    {
      var size := vchBuf.Length;
      forall i | 0 <= i < got {
        vchBuf[pos + i] := file[srcPos + i];
      }
      ghost var was := srcPos;
      srcPos := srcPos + got;
      forall k: nat | srcPos - size <= k < srcPos ensures vchBuf[k % size] == file[k] {
        if k >= was {
          RingIndex(was, k - was, size);
        } else {
          RingBack(was, was - k, size);
        }
      }
    }

    lemma RingAt(p: nat, i: nat)
      requires Ring() && p % vchBuf.Length + i < vchBuf.Length && srcPos - vchBuf.Length <= p && p + i < srcPos
      ensures vchBuf[p % vchBuf.Length + i] == file[p + i]
    {
      RingIndex(p, i, vchBuf.Length);
    }

    /** Bytes of the ring from the read position on, as memcpy takes them. */
    lemma Slice(now: nat)
      requires Valid() && readPos % vchBuf.Length + now <= vchBuf.Length && readPos + now <= srcPos
      ensures vchBuf[readPos % vchBuf.Length..readPos % vchBuf.Length + now] == file[readPos..readPos + now]
    {
      hide Ring;
      var pos := readPos % vchBuf.Length;
      var kept, wanted := vchBuf[pos..pos + now], file[readPos..readPos + now];
      forall i | 0 <= i < now ensures kept[i] == wanted[i] { RingAt(readPos, i); }
    }

    /** One turn of the read loop: refill if need be, then copy what lies in one piece in the ring. */
    method Take(left: nat) returns (ok: bool, chunk: seq<Byte>)
      requires Valid() && left > 0
      modifies this`srcPos, this`readPos, this`failed, vchBuf
      ensures Valid() && srcPos >= old(srcPos)
      ensures ok ==> old(readPos) < readPos <= old(readPos) + left && chunk == file[old(readPos)..readPos]
      ensures ok ==> srcPos == old(srcPos) + if old(readPos) == old(srcPos) then old(FillSize()) else 0
      ensures ok ==> failed == old(failed)
      ensures !ok ==> readPos == old(readPos) == srcPos && failed && (!Working() || readPos == |file|)
    {
      hide Ring, Working, FillSize;
      chunk := [];
      if readPos == srcPos {
        ok := Fill();
        if !ok {
          return;
        }
      }
      var size := vchBuf.Length;
      DivMod(readPos, size);
      var pos := readPos % size;
      var now := left;
      if now + pos > size { now := size - pos; }
      if now + readPos > srcPos { now := srcPos - readPos; }
      assert now > 0 && pos + now <= size && readPos + now <= srcPos;
      Slice(now);
      chunk := vchBuf[pos..pos + now];
      readPos := readPos + now;
      ok := true;
    }

    /**
     Reads `n` bytes. Whatever happens, the bytes copied are the file's bytes from the old read position on;
     with a working device the call completes exactly when limit, buffer and file allow it.
     */
    method Read(n: nat) returns (r: Outcome, pch: seq<Byte>)
      requires Valid() && n < TWO_64
      modifies this`srcPos, this`readPos, this`failed, vchBuf
      ensures Valid() && old(readPos) <= readPos && pch == file[old(readPos)..readPos] && srcPos >= old(srcPos)
      ensures r == Done ==> |pch| == n && failed == old(failed)
      ensures r == Done ==> old(readPos) + n <= readLimit && n + rewind <= vchBuf.Length
      ensures Working() ==> (r == Done <==>
        old(readPos) + n <= readLimit && n + rewind <= vchBuf.Length && old(readPos) + n <= |file|)
      ensures r == SourceFailed ==> failed && readPos == srcPos && |pch| < n
      ensures r == PastLimit || r == LargerThanBuffer ==> pch == []
      ensures r == Done && n == 1 ==> srcPos == old(srcPos) + if old(readPos) == old(srcPos) then old(FillSize()) else 0
    {
      hide Ring, Working, FillSize;
      Wrapped(n + readPos);
      Wrapped(n + rewind);
      pch := [];
      if (n + readPos) % TWO_64 > readLimit {
        return PastLimit, pch;
      }
      if (n + rewind) % TWO_64 > vchBuf.Length {
        return LargerThanBuffer, pch;
      }
      var left: nat := n;
      while left > 0
        invariant Valid() && old(readPos) <= readPos && readPos + left == old(readPos) + n && srcPos >= old(srcPos)
        invariant pch == file[old(readPos)..readPos] && failed == old(failed)
        invariant left == n ==> srcPos == old(srcPos)
        invariant n == 1 && left == 0 ==> srcPos == old(srcPos) + if old(readPos) == old(srcPos) then old(FillSize()) else 0
        decreases left
      {
        ghost var from := readPos;
        var ok, chunk := Take(left);
        if !ok {
          return SourceFailed, pch;
        }
        SliceJoin(file, old(readPos), from, readPos);
        pch := pch + chunk;
        left := left - |chunk|;
      }
      r := Done;
    }

    /** Moves the read position; true when it could go exactly there. */
    method SetPos(p: nat) returns (ok: bool)
      requires Valid() && p < TWO_64
      modifies this`readPos
      ensures readPos == Landing(srcPos, rewind, p)
      ensures ok <==> readPos == p && (p + rewind) % TWO_64 >= srcPos
      ensures Valid() <==> !WrapsOut(srcPos, rewind, p)
      ensures p + rewind < TWO_64 ==>
        forall q: nat :: srcPos - rewind <= q <= srcPos ==> Distance(readPos, p) <= Distance(q, p)
    {
      hide Ring, Distance;
      NearestInWindow(srcPos, rewind, p);
      LandsInWindow(srcPos, rewind, p);
      Wrapped(p + rewind);
      readPos := p;
      if (readPos + rewind) % TWO_64 < srcPos {
        readPos := (srcPos - rewind + TWO_64) % TWO_64;
        ok := false;
      } else if readPos > srcPos {
        readPos := srcPos;
        ok := false;
      } else {
        ok := true;
      }
    }

    method SetLimit(p: nat) returns (ok: bool)
      requires Valid() && p < TWO_64
      modifies this`readLimit
      ensures Valid() && ok == (readPos <= p) && readLimit == if ok then p else old(readLimit)
    {
      if p < readPos {
        return false;
      }
      readLimit := p;
      ok := true;
    }

    /** Stops at the first `ch` at or after the read position, whatever the read limit; throws at the end of the file. */
    method FindByte(ch: Byte) returns (r: Outcome)
      requires Valid()
      modifies this`srcPos, this`readPos, this`failed, vchBuf
      ensures Valid() && old(readPos) <= readPos && ch !in file[old(readPos)..readPos]
      ensures r == Done || r == SourceFailed
      ensures r == Done ==> readPos < |file| && file[readPos] == ch && failed == old(failed)
      ensures r == SourceFailed ==> readPos == srcPos && failed && (!Working() || readPos == |file|)
      ensures Working() ==> (r == Done <==> ch in file[old(readPos)..])
    {
      hide Ring, Working, FillSize;
      while true
        invariant Valid() && old(readPos) <= readPos && ch !in file[old(readPos)..readPos] && failed == old(failed)
        decreases |file| - readPos
      {
        if readPos == srcPos {
          var ok := Fill();
          if !ok {
            assert readPos == |file| ==> file[old(readPos)..readPos] == file[old(readPos)..];
            return SourceFailed;
          }
        }
        CurrentByte();
        if vchBuf[readPos % vchBuf.Length] == ch {
          FirstMatch(file, old(readPos), readPos, ch);
          break;
        }
        FirstMatch(file, old(readPos), readPos, ch);
        readPos := readPos + 1;
      }
      r := Done;
    }

    lemma CurrentByte()
      requires Valid() && readPos < srcPos
      ensures vchBuf[readPos % vchBuf.Length] == file[readPos]
    {
    }
  }

  /** Reading and then going back to where one was works exactly while the source is at most `rewind` bytes ahead. */
  method ReadAndReturn(f: CBufferedFile, n: nat) returns (r: Outcome, back: bool)
    requires f.Valid() && n < TWO_64
    modifies f, f.vchBuf
    ensures r == Done ==> f.Valid() && (back <==> f.srcPos <= old(f.readPos) + f.rewind)
    ensures r == Done && back ==> f.readPos == old(f.readPos)
    ensures r == Done && !back ==> f.readPos > old(f.readPos)
  {
    hide CBufferedFile.Ring, CBufferedFile.FillSize, CBufferedFile.Working;
    var p := f.readPos;
    var pch;
    r, pch := f.Read(n);
    back := false;
    if r == Done {
      back := f.SetPos(p);
    }
  }

  /**
   So stepping back from the read position is not guaranteed: with a 10-byte buffer and 4 bytes to rewind, the one byte
   read after a 6-byte fill cannot be taken back, and trying to moves the reader forward.
   */
  method RewindRefused(file: seq<Byte>) returns (f: CBufferedFile, pch: seq<Byte>, ok: bool)
    requires 6 <= |file| < 0x8000_0000_0000_0000
    ensures fresh(f) && f.Valid() && f.rewind == 4 && pch == file[..1] && !ok && f.srcPos == 6 && f.readPos == 2
  {
    f := new CBufferedFile(file, p => 6, 10, 4);
    assert f.Working();
    var r;
    r, pch := f.Read(1);
    ok := f.SetPos(0);
  }

  /**
   And the window itself can be left: with two bytes taken from the source and four to rewind, a position at which the
   sum wraps around clamps the reader to a place before the start of the file.
   */
  method WrappedOut(file: seq<Byte>) returns (f: CBufferedFile, pch: seq<Byte>, ok: bool)
    requires 2 <= |file| < 0x8000_0000_0000_0000
    ensures fresh(f) && f.rewind == 4 && f.srcPos == 2 && pch == file[..1] && !ok
    ensures f.readPos == TWO_64 - 2 && !f.Valid()
  {
    f := new CBufferedFile(file, p => 2, 10, 4);
    assert f.Working();
    var r;
    r, pch := f.Read(1);
    ok := f.SetPos(TWO_64 - 3);
  }
}
