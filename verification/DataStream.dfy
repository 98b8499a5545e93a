/** The in-memory stream: a byte vector with a read position, consumed from the front and appended at the back. */
module DataStream {
  import opened Common

  /** Moving the boundary from `a` to `b` in a buffer whose front is the end of `done`. */
  lemma Slices(done: seq<Byte>, s: seq<Byte>, a: nat, b: nat)
    requires a <= b <= |s| && a <= |done| && s[..a] == done[|done| - a..]
    ensures s[a..][..b - a] == s[a..b] && s[a..][b - a..] == s[b..] && (b == |s| ==> s[a..b] == s[a..])
    ensures (done + s[a..b]) + s[b..] == done + s[a..]
    ensures s[..b] == (done + s[a..b])[|done| - a..]
  {
    assert s[..b] == s[..a] + s[a..b];
  }

  class CDataStream {
    var vch: seq<Byte>
    var readPos: nat
    /** failbit; the default exception mask turns setting it into a throw. */
    var failed: bool

    /** Every byte read so far and not rewound over. */
    ghost var consumed: seq<Byte>

    /** The kept part of the buffer is the end of what was consumed. */
    ghost predicate Valid()
      reads this
    {
      && readPos <= |vch|
      && readPos <= |consumed|
      && vch[..readPos] == consumed[|consumed| - readPos..]
    }

    ghost function Unread(): seq<Byte>
      reads this
      requires Valid()
    {
      vch[readPos..]
    }

    /** All bytes ever written: reading and rewinding move the boundary, nothing else. */
    ghost function Everything(): seq<Byte>
      reads this
      requires Valid()
    {
      consumed + Unread()
    }

    constructor ()
      ensures Valid() && consumed == [] && Unread() == [] && !failed
    {
      vch, readPos, failed, consumed := [], 0, false, [];
    }

    method Write(pch: seq<Byte>)
      requires Valid()
      modifies this
      ensures Valid() && consumed == old(consumed) && Unread() == old(Unread()) + pch && failed == old(failed)
      ensures readPos == old(readPos)
    {
      vch := vch + pch;
    }

    /** Reads exactly `size` bytes, or throws (None) and leaves the contents alone. The 32-bit sum must not wrap. */
    method Read(size: nat) returns (r: Option<seq<Byte>>)
      requires Valid() && size < 0x8000_0000 && readPos + size < 0x1_0000_0000
      modifies this
      ensures Valid() && Everything() == old(Everything()) && |vch| <= |old(vch)|
      ensures size <= |old(Unread())| ==>
        r == Some(old(Unread())[..size]) && Unread() == old(Unread())[size..] && failed == old(failed)
      ensures size > |old(Unread())| ==> r == None && Unread() == old(Unread()) && failed
      ensures readPos == if size >= |old(Unread())| then (if r.None? then old(readPos) else 0) else old(readPos) + size
    {
      var next := (readPos + size) % 0x1_0000_0000;
      assert next == readPos + size;
      if next <= |vch| { Slices(consumed, vch, readPos, next); }
      if next >= |vch| {
        if next > |vch| {
          failed := true;
          return None;
        }
        r := Some(vch[readPos..readPos + size]);
        consumed := consumed + vch[readPos..];
        readPos := 0;
        vch := [];
        return;
      }
      r := Some(vch[readPos..readPos + size]);
      ghost var kept := |consumed| - readPos;
      consumed := consumed + vch[readPos..next];
      readPos := next;
      assert |consumed| - readPos == kept;
    }

    /** Steps back over the last `n` bytes read, exactly if the buffer still keeps them. */
    method Rewind(n: nat) returns (ok: bool)
      requires Valid()
      modifies this
      ensures Valid() && Everything() == old(Everything()) && failed == old(failed) && ok == (n <= old(readPos))
      ensures ok ==> n <= |old(consumed)| && Unread() == old(consumed)[|old(consumed)| - n..] + old(Unread())
      ensures !ok ==> Unread() == old(Unread())
    {
      if n > readPos {
        return false;
      }
      var was := vch[readPos - n..readPos];
      assert was == vch[..readPos][readPos - n..];
      readPos := readPos - n;
      consumed := consumed[..|consumed| - n];
      assert vch[readPos..] == was + vch[readPos + n..];
      assert vch[..readPos] == old(vch[..readPos])[..readPos];
      ok := true;
    }

    /** Drops the part already read; nothing can be rewound afterwards. */
    method Compact()
      requires Valid()
      modifies this
      ensures Valid() && Everything() == old(Everything()) && Unread() == old(Unread()) && readPos == 0
      ensures failed == old(failed)
    {
      vch := vch[readPos..];
      readPos := 0;
    }
  }

  /** Reading and stepping back again restores the stream, unless the read took the last byte. */
  method ReadThenRewind(s: CDataStream, size: nat) returns (ok: bool)
    requires s.Valid() && 0 < size <= |s.Unread()| && size < 0x8000_0000 && |s.vch| < 0x1_0000_0000
    modifies s
    ensures s.Valid() && s.Everything() == old(s.Everything()) && ok == (size < |old(s.Unread())|)
    ensures ok ==> s.Unread() == old(s.Unread())
    ensures !ok ==> s.Unread() == []
  {
    var r := s.Read(size);
    ok := s.Rewind(size);
    if ok {
      assert old(s.Everything())[|old(s.consumed)|..] == old(s.Unread());
    }
  }
}
