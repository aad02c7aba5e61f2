/** The `Memory` class of the runtime: a byte overlay (Uint8Array) and a
    32-bit word overlay (Uint32Array) over the ArrayBuffer of a guest
    module's WebAssembly.Memory, re-acquired when the guest has grown its
    memory and thereby detached the old buffer.

    Both overlays view the same bytes, so the model keeps only the buffer:
    the word overlay is the little-endian reading of four consecutive
    bytes. */
module Memories {
  import opened Base
  import opened CStrings

  // ---------------------------------------------------------------------
  // The word overlay and the stores, on a snapshot of the bytes
  // ---------------------------------------------------------------------

  /** The word index `o >> 2` used by `read32` and `write32`: the shift
      converts `o` to a signed 32-bit integer and floors. */
  function WordIndex(o: int): int {
    ToInt32(o) / 4
  }

  /** The value of four bytes read as one little-endian word. */
  function WordOf(b0: byte, b1: byte, b2: byte, b3: byte): (w: int)
    ensures 0 <= w < 0x1_0000_0000
  {
    b0 + 0x100 * b1 + 0x1_0000 * b2 + 0x100_0000 * b3
  }

  /** The word at index `k` of the overlay, for an index inside it. */
  function WordAt(b: seq<byte>, k: int): int
    requires 0 <= k && 4 * k + 4 <= |b|
  {
    WordOf(b[4 * k], b[4 * k + 1], b[4 * k + 2], b[4 * k + 3])
  }

  /** `u32[k]`: the word at index `k`, or `undefined` (None) outside the
      overlay, whose length is a quarter of the byte length. */
  function Word(b: seq<byte>, k: int): (w: Option<int>)
    ensures w.Some? <==> 0 <= k < |b| / 4
    ensures w.Some? ==> 0 <= w.value < 0x1_0000_0000
  {
    if 0 <= k && 4 * k + 4 <= |b| then Some(WordAt(b, k)) else None
  }

  /** The four bytes that hold a word value in little-endian order. */
  function LittleEndian(v: int): (r: seq<byte>)
    requires 0 <= v < 0x1_0000_0000
    ensures |r| == 4
  {
    var q1 := v / 0x100;
    var q2 := q1 / 0x100;
    var q3 := q2 / 0x100;
    [v % 0x100, q1 % 0x100, q2 % 0x100, q3]
  }

  lemma LittleEndianRoundTrip(v: int)
    requires 0 <= v < 0x1_0000_0000
    ensures var r := LittleEndian(v); WordOf(r[0], r[1], r[2], r[3]) == v
  {
    var q1 := v / 0x100;
    var q2 := q1 / 0x100;
    var q3 := q2 / 0x100;
    assert v == v % 0x100 + 0x100 * q1;
    assert q1 == q1 % 0x100 + 0x100 * q2;
    assert q2 == q2 % 0x100 + 0x100 * q3;
  }

  /** The bytes after `u8[o] = v`: the value is reduced modulo 256, and a
      store outside the array is ignored. */
  function Store8(b: seq<byte>, o: int, v: int): seq<byte> {
    if 0 <= o < |b| then b[o := ToUint8(v)] else b
  }

  /** The bytes after `u32[o >> 2] = v`: the value is reduced modulo 2^32,
      and a store outside the overlay is ignored. */
  function Store32(b: seq<byte>, o: int, v: int): seq<byte> {
    var k := WordIndex(o);
    if 0 <= k && 4 * k + 4 <= |b| then b[..4 * k] + LittleEndian(ToUint32(v)) + b[4 * k + 4..]
    else b
  }

  /** The bytes after `write64(o, lo, hi)`: two word stores. */
  function Store64(b: seq<byte>, o: int, lo: int, hi: int): seq<byte> {
    Store32(Store32(b, o, lo), o + 4, hi)
  }

  /** What `write` accepts: an ArrayBuffer or typed array (bytes), or a
      string, which it splits into code units. */
  datatype Data = Binary(bytes: seq<byte>) | Text(units: JsString)

  /** The numbers `write` hands to `Uint8Array.set`. */
  function Values(d: Data): seq<int> {
    match d
    case Binary(bytes) => bytes
    case Text(units) => units
  }

  /** The bytes after `new Uint8Array(buffer, o, vals.length).set(vals)`:
      each value reduced modulo 256 and stored from `o` on. */
  function Splice(b: seq<byte>, o: int, vals: seq<int>): (r: seq<byte>)
    requires 0 <= o && o + |vals| <= |b|
    ensures |r| == |b|
    decreases |vals|
  {
    if vals == [] then b else Splice(b[o := ToUint8(vals[0])], o + 1, vals[1..])
  }


  /** The exception, if any, that `new Uint8Array(buffer, o, len)` throws,
      in the order the constructor checks: a negative offset or length is a
      RangeError, a detached buffer a TypeError, and a view running past
      the end of the buffer a RangeError. */
  function ViewFault(byteLength: nat, detached: bool, o: int, len: int): (f: Option<Fault>)
    ensures f == None <==> 0 <= o && 0 <= len && !detached && o + len <= byteLength
  {
    if o < 0 || len < 0 then Some(RangeError)
    else if detached then Some(TypeError)
    else if o + len > byteLength then Some(RangeError)
    else None
  }

  // ---------------------------------------------------------------------
  // Properties of the stores
  // ---------------------------------------------------------------------

  /** `write32(o, v)` then `read32(o)` gives back `v` modulo 2^32 when the
      word lies inside the overlay, and the store changes only the four
      bytes of that word. */
  lemma Read32AfterWrite32(b: seq<byte>, o: int, v: int)
    requires 0 <= WordIndex(o) < |b| / 4
    ensures Word(Store32(b, o, v), WordIndex(o)) == Some(ToUint32(v))
    ensures |Store32(b, o, v)| == |b|
    ensures forall i :: 0 <= i < |b| && i / 4 != WordIndex(o) ==> Store32(b, o, v)[i] == b[i]
  {
    var k := WordIndex(o);
    var r := Store32(b, o, v);
    var le := LittleEndian(ToUint32(v));
    LittleEndianRoundTrip(ToUint32(v));
    assert r[4 * k..4 * k + 4] == le;
    assert r[4 * k] == le[0] && r[4 * k + 1] == le[1] && r[4 * k + 2] == le[2] && r[4 * k + 3] == le[3];
  }

  /** A word store leaves every other word as it was. */
  lemma Write32OtherWords(b: seq<byte>, o: int, v: int, k: int)
    requires k != WordIndex(o)
    ensures Word(Store32(b, o, v), k) == Word(b, k)
  {
    var r := Store32(b, o, v);
    var j := WordIndex(o);
    if 0 <= j < |b| / 4 && 0 <= k < |b| / 4 {
      Read32AfterWrite32(b, o, v);
      assert (4 * k) / 4 == k && (4 * k + 1) / 4 == k && (4 * k + 2) / 4 == k && (4 * k + 3) / 4 == k;
      assert r[4 * k] == b[4 * k] && r[4 * k + 1] == b[4 * k + 1];
      assert r[4 * k + 2] == b[4 * k + 2] && r[4 * k + 3] == b[4 * k + 3];
    }
  }

  /** For an address below 2^31 the shift ignores the two low bits: every
      address of a word's four bytes selects that word. */
  lemma WordIndexIgnoresLowBits(o: int)
    requires 0 <= o < 0x8000_0000
    ensures WordIndex(o) == o / 4 == WordIndex(o - o % 4)
  {
  }

  /** `write64(o, lo, hi)` leaves `lo` in the word at `o` and `hi` in the
      next word, when both words lie inside the overlay and `o + 4` does
      not cross 2^31. */
  lemma Read64AfterWrite64(b: seq<byte>, o: int, lo: int, hi: int)
    requires 0 <= o && o + 4 < 0x8000_0000
    requires o / 4 + 1 < |b| / 4
    ensures Word(Store64(b, o, lo, hi), o / 4) == Some(ToUint32(lo))
    ensures Word(Store64(b, o, lo, hi), o / 4 + 1) == Some(ToUint32(hi))
  {
    var b1 := Store32(b, o, lo);
    Read32AfterWrite32(b, o, lo);
    assert WordIndex(o + 4) == o / 4 + 1;
    Read32AfterWrite32(b1, o + 4, hi);
    Write32OtherWords(b1, o + 4, hi, o / 4);
  }

  /** `write(o, buf)` sets bytes `[o, o + n)` to the values modulo 256 and
      leaves every other byte unchanged. */
  lemma {:induction false} SpliceBytes(b: seq<byte>, o: int, vals: seq<int>)
    requires 0 <= o && o + |vals| <= |b|
    ensures forall i :: 0 <= i < |vals| ==> Splice(b, o, vals)[o + i] == ToUint8(vals[i])
    ensures forall i :: 0 <= i < |b| && !(o <= i < o + |vals|) ==> Splice(b, o, vals)[i] == b[i]
    decreases |vals|
  {
    if vals != [] {
      var b' := b[o := ToUint8(vals[0])];
      SpliceBytes(b', o + 1, vals[1..]);
      forall i | 1 <= i < |vals| ensures vals[1..][i - 1] == vals[i] {
      }
    }
  }

  /** Storing the next value right after a spliced run extends the run. */
  lemma {:induction false} SpliceSnoc(b: seq<byte>, o: int, vals: seq<int>, x: int)
    requires 0 <= o && o + |vals| < |b|
    ensures Splice(b, o, vals)[o + |vals| := ToUint8(x)] == Splice(b, o, vals + [x])
    decreases |vals|
  {
    if vals != [] {
      assert (vals + [x])[1..] == vals[1..] + [x];
      SpliceSnoc(b[o := ToUint8(vals[0])], o + 1, vals[1..], x);
    }
  }

  /** `writeStr(o, s)` followed by `readStr(o)` gives `s` back, for a string
      whose code units are bytes other than zero, written inside the
      buffer with room for the terminator. */
  lemma ReadStrAfterWriteStr(b: seq<byte>, o: int, s: JsString)
    requires 0 <= o && o + |s| < |b|
    requires forall k :: 0 <= k < |s| ==> 0 < s[k] < 0x100
    ensures CString(Store8(Splice(b, o, s), o + |s|, 0), o, -1) == s
  {
    var r := Store8(Splice(b, o, s), o + |s|, 0);
    SpliceBytes(b, o, s);
    var text: seq<byte> := s;
    assert r[o..o + |s|] == text by {
      forall k | 0 <= k < |s| ensures r[o + k] == text[k] {
        assert Splice(b, o, s)[o + k] == ToUint8(s[k]);
      }
    }
    DecodeText(r, o, |r|, text);
  }

  // ---------------------------------------------------------------------
  // The objects
  // ---------------------------------------------------------------------

  /** An ArrayBuffer. Detaching it (which the engine does when the memory
      that owns it grows) leaves it with no bytes. */
  class ArrayBuffer {
    var data: array<byte>
    var detached: bool

    ghost predicate Valid()
      reads this
    {
      detached ==> data.Length == 0
    }

    /** `byteLength`. */
    function ByteLength(): nat
      reads this
    {
      data.Length
    }

    /** A fresh buffer of `n` zero bytes. */
    constructor (n: nat)
      ensures Valid() && !detached && fresh(data)
      ensures data[..] == seq(n, _ => 0)
    {
      data := new byte[n](_ => 0);
      detached := false;
    }
  }

  /** A WebAssembly.Memory: the live buffer of one guest module. It is
      grown by the guest, asynchronously to the host code; `Grow` is that
      event, not part of the runtime. */
  class WasmMemory {
    var buffer: ArrayBuffer

    /** The live buffer is a whole number of 64 KiB pages. */
    ghost predicate Valid()
      reads this, buffer
    {
      buffer.Valid() && !buffer.detached && buffer.data.Length % 0x1_0000 == 0
    }

    constructor (pages: nat)
      ensures Valid() && fresh(buffer) && fresh(buffer.data)
      ensures buffer.data[..] == seq(pages * 0x1_0000, _ => 0)
    {
      buffer := new ArrayBuffer(pages * 0x1_0000);
    }

    /** `memory.grow(delta)`: a new, larger buffer starting with the old
      bytes; the old buffer is detached. */
    method Grow(delta: nat)
      requires Valid()
      modifies this, buffer
      ensures Valid() && fresh(buffer) && fresh(buffer.data)
      ensures buffer.data[..] == old(buffer.data[..]) + seq(delta * 0x1_0000, _ => 0)
      ensures old(buffer).detached && old(buffer).data.Length == 0
    {
      var previous := buffer;
      var n := previous.data.Length;
      var grown := new ArrayBuffer(n + delta * 0x1_0000);
      var target := grown.data;
      var i := 0;
      while i < n
        invariant 0 <= i <= n
        invariant grown.data == target && !grown.detached
        invariant previous == old(buffer) && previous.data == old(buffer.data)
        invariant target.Length == n + delta * 0x1_0000
        invariant target[..i] == previous.data[..i]
        invariant target[i..] == seq(n + delta * 0x1_0000 - i, _ => 0)
      {
        target[i] := previous.data[i];
        i := i + 1;
      }
      assert target[..] == old(buffer.data[..]) + seq(delta * 0x1_0000, _ => 0) by {
        assert target[..] == target[..n] + target[n..];
        assert previous.data[..] == previous.data[..n] == old(buffer.data[..]);
        assert target[n..] == seq(delta * 0x1_0000, _ => 0);
      }
      previous.data := new byte[0];
      previous.detached := true;
      buffer := grown;
    }
  }

  /** The `Memory` class: the cached buffer with its overlays. */
  class Memory {
    const memory: WasmMemory
    var buffer: ArrayBuffer

    /** The cached buffer is the live one, or one that growth detached. */
    ghost predicate Valid()
      reads this, buffer, memory, memory.buffer
    {
      memory.Valid() && buffer.Valid() && (buffer == memory.buffer || buffer.detached)
    }

    /** The overlays view the live buffer. */
    ghost predicate Live()
      reads this, memory
    {
      buffer == memory.buffer
    }

    /** The bytes the overlays currently view. */
    function Bytes(): seq<byte>
      reads this, buffer, buffer.data
    {
      buffer.data[..]
    }

    constructor (memory: WasmMemory)
      requires memory.Valid()
      ensures this.memory == memory && Valid() && Live()
    {
      this.memory := memory;
      buffer := memory.buffer;
    }

    /** `check()`: when the cached buffer reports byte length 0 (it was
      detached by growth), re-acquire the live buffer. */
    method Check()
      requires Valid()
      modifies this`buffer
      ensures Valid() && Live()
      ensures buffer == if old(buffer.data.Length) == 0 then memory.buffer else old(buffer)
    {
      if buffer.data.Length == 0 {
        buffer := memory.buffer;
      }
    }

    /** `read8(o)`. */
    method Read8(o: int) returns (v: Option<byte>)
      ensures v == ElementAt(Bytes(), o)
    {
      if 0 <= o < buffer.data.Length {
        v := Some(buffer.data[o]);
      } else {
        v := None;
      }
    }

    /** `read32(o)`. */
    method Read32(o: int) returns (v: Option<int>)
      ensures v == Word(Bytes(), WordIndex(o))
    {
      var k := WordIndex(o);
      if 0 <= k && 4 * k + 4 <= buffer.data.Length {
        var d := buffer.data;
        v := Some(WordOf(d[4 * k], d[4 * k + 1], d[4 * k + 2], d[4 * k + 3]));
      } else {
        v := None;
      }
    }

    /** `write8(o, v)`. */
    method Write8(o: int, v: int)
      modifies buffer.data
      ensures Bytes() == Store8(old(Bytes()), o, v)
    {
      if 0 <= o < buffer.data.Length {
        buffer.data[o] := ToUint8(v);
      }
    }

    /** `write32(o, v)`. */
    method Write32(o: int, v: int)
      modifies buffer.data
      ensures Bytes() == Store32(old(Bytes()), o, v)
    {
      var k := WordIndex(o);
      var d := buffer.data;
      if 0 <= k && 4 * k + 4 <= d.Length {
        var le := LittleEndian(ToUint32(v));
        d[4 * k] := le[0];
        d[4 * k + 1] := le[1];
        d[4 * k + 2] := le[2];
        d[4 * k + 3] := le[3];
        assert d[..] == old(d[..])[..4 * k] + le + old(d[..])[4 * k + 4..];
      }
    }

    /** `write64(o, vlo, vhi)`: the low word at `o`, the high word at
      `o + 4` (the source's default for `vhi` is 0). */
    method Write64(o: int, lo: int, hi: int)
      modifies buffer.data
      ensures Bytes() == Store64(old(Bytes()), o, lo, hi)
    {
      Write32(o, lo);
      Write32(o + 4, hi);
    }

    /** `readStr(o, len)`. */
    method ReadStr(o: int, len: int) returns (s: JsString)
      ensures s == CString(Bytes(), o, len)
    {
      s := CStrings.ReadStr(buffer.data[..], o, len);
    }

    /** `write(o, buf)`: copy the values through a byte view starting at
      `o`; returns how many were written, or the exception the view's
      constructor throws. */
    method Write(o: int, buf: Data) returns (r: Result<nat>)
      requires buffer.Valid()
      modifies buffer.data
      ensures match ViewFault(old(buffer.data.Length), buffer.detached, o, |Values(buf)|)
        case Some(f) => r == Err(f) && Bytes() == old(Bytes())
        case None => r == Ok(|Values(buf)|) && Bytes() == Splice(old(Bytes()), o, Values(buf))
    {
      var vals := Values(buf);
      var fault := ViewFault(buffer.data.Length, buffer.detached, o, |vals|);
      if fault.Some? {
        return Err(fault.value);
      }
      var d := buffer.data;
      var i := 0;
      while i < |vals|
        invariant 0 <= i <= |vals|
        invariant d[..] == Splice(old(d[..]), o, vals[..i])
      {
        SpliceSnoc(old(d[..]), o, vals[..i], vals[i]);
        d[o + i] := ToUint8(vals[i]);
        assert vals[..i + 1] == vals[..i] + [vals[i]];
        i := i + 1;
      }
      assert vals[..i] == vals;
      r := Ok(|vals|);
    }

    /** `writeStr(o, str)`: the string's code units followed by a zero
      byte; returns the string's length plus one. */
    method WriteStr(o: int, str: JsString) returns (r: Result<nat>)
      requires buffer.Valid()
      modifies buffer.data
      ensures match ViewFault(old(buffer.data.Length), buffer.detached, o, |str|)
        case Some(f) => r == Err(f) && Bytes() == old(Bytes())
        case None => r == Ok(|str| + 1) && Bytes() == Store8(Splice(old(Bytes()), o, str), o + |str|, 0)
    {
      var n := Write(o, Text(str));
      if n.Err? {
        return Err(n.fault);
      }
      Write8(o + n.value, 0);
      r := Ok(|str| + 1);
    }
  }

  /** The growth scenario: the guest grows its memory between two host
      accesses. Without `check` the overlays view the detached buffer and
      read `undefined`; after `check` every old offset reads the byte it
      held before the growth, and the new bytes read 0. */
  method ReadAcrossGrowth(m: Memory, delta: nat, o: int) returns (before: Option<byte>, stale: Option<byte>, after: Option<byte>)
    requires m.Valid() && m.Live()
    modifies m, m.memory, m.memory.buffer
    ensures m.Valid() && m.Live()
    ensures stale == None
    ensures 0 <= o < |old(m.Bytes())| ==> after == before && before.Some?
    ensures |old(m.Bytes())| <= o < |old(m.Bytes())| + delta * 0x1_0000 ==> after == Some(0)
  {
    before := m.Read8(o);
    m.memory.Grow(delta);
    stale := m.Read8(o);
    m.Check();
    after := m.Read8(o);
  }
}
