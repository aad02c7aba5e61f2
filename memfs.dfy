/** The syscall bridge of `MemFS`: the host functions that a guest module
    (compiler, linker, user program) calls for vectored writes and reads,
    and the raw copies between the guest's memory and the memory of the
    filesystem module. */
module Syscalls {
  import opened Base
  import opened CStrings
  import opened Memories

  /** One (pointer, length) pair of a scatter/gather request. Both are
      words read from the caller's memory, hence in [0, 2^32). */
  datatype Iovec = Iovec(buf: int, len: int)

  /** A node of the filesystem as the host creates it. The node table
      itself lives inside the filesystem module and is not modelled; the
      host's calls are recorded in order. */
  datatype Node = DirectoryNode(path: JsString) | FileNode(path: JsString, contents: seq<byte>)

  // ---------------------------------------------------------------------
  // The iovec table
  // ---------------------------------------------------------------------

  /** The descriptors of a table whose first word is `w` lie inside a
      word overlay over `n` bytes: descriptor `i` is the words `w + 2i`
      (buffer) and `w + 2i + 1` (length). */
  predicate WordsInBounds(n: nat, w: int, count: int) {
    count <= 0 || (0 <= w && 4 * w + 8 * count <= n)
  }

  /** A table of `count` descriptors at address `iovs` that `read32` can
      walk: it starts at a non-negative address, ends below 2^31, where
      `>> 2` is a division by 4, and its words lie inside the overlay. */
  predicate TableInBounds(n: nat, iovs: int, count: int) {
    count <= 0 || (0 <= iovs && iovs + 8 * count <= 0x8000_0000 && WordsInBounds(n, WordIndex(iovs), count))
  }

  /** `read32(iovs + 8i)` and `read32(iovs + 8i + 4)` read the words
      `w + 2i` and `w + 2i + 1` of the table that starts at `w = iovs >> 2`. */
  lemma DescriptorWords(n: nat, iovs: int, count: int, i: int)
    requires TableInBounds(n, iovs, count) && 0 <= i < count
    ensures WordsInBounds(n, WordIndex(iovs), count)
    ensures WordIndex(iovs + 8 * i) == WordIndex(iovs) + 2 * i
    ensures WordIndex(iovs + 8 * i + 4) == WordIndex(iovs) + 2 * i + 1
  {
    assert WordIndex(iovs) == iovs / 4;
    assert (iovs + 8 * i) / 4 == iovs / 4 + 2 * i;
    assert (iovs + 8 * i + 4) / 4 == iovs / 4 + 2 * i + 1;
  }

  /** Descriptor `i` of the table whose first word is `w`. */
  function IovecAt(b: seq<byte>, w: int, i: int): (v: Iovec)
    requires 0 <= i && WordsInBounds(|b|, w, i + 1)
    ensures 0 <= v.buf < 0x1_0000_0000 && 0 <= v.len < 0x1_0000_0000
  {
    Iovec(WordAt(b, w + 2 * i), WordAt(b, w + 2 * i + 1))
  }

  /** Reading descriptor `i` word by word, as `read32` does, gives
      `IovecAt`. */
  lemma DescriptorRead(b: seq<byte>, iovs: int, count: int, i: int)
    requires TableInBounds(|b|, iovs, count) && 0 <= i < count
    ensures WordsInBounds(|b|, WordIndex(iovs), count)
    ensures Word(b, WordIndex(iovs + 8 * i)) == Some(IovecAt(b, WordIndex(iovs), i).buf)
    ensures Word(b, WordIndex(iovs + 8 * i + 4)) == Some(IovecAt(b, WordIndex(iovs), i).len)
  {
    DescriptorWords(|b|, iovs, count, i);
  }

  /** The first `count` descriptors of the table whose first word is `w`. */
  function Iovecs(b: seq<byte>, w: int, count: nat): (vs: seq<Iovec>)
    requires WordsInBounds(|b|, w, count)
    ensures |vs| == count
    ensures forall i :: 0 <= i < count ==> vs[i] == IovecAt(b, w, i)
  {
    seq(count, i requires 0 <= i < count && WordsInBounds(|b|, w, count) => IovecAt(b, w, i))
  }

  // ---------------------------------------------------------------------
  // host_write
  // ---------------------------------------------------------------------

  /** The string `host_write` emits: each buffer decoded as by `readStr`
      (so a zero byte cuts that buffer's part short), in iovec order. */
  function Gathered(b: seq<byte>, vs: seq<Iovec>): JsString {
    if vs == [] then [] else Gathered(b, vs[..|vs| - 1]) + CString(b, vs[|vs| - 1].buf, vs[|vs| - 1].len)
  }

  /** The byte count `host_write` reports: the sum of the lengths. */
  function Total(vs: seq<Iovec>): int {
    if vs == [] then 0 else Total(vs[..|vs| - 1]) + vs[|vs| - 1].len
  }

  lemma IovecsSnoc(b: seq<byte>, w: int, i: nat)
    requires WordsInBounds(|b|, w, i + 1)
    ensures Iovecs(b, w, i + 1) == Iovecs(b, w, i) + [IovecAt(b, w, i)]
  {
  }

  lemma GatheredSnoc(b: seq<byte>, vs: seq<Iovec>, v: Iovec)
    ensures Gathered(b, vs + [v]) == Gathered(b, vs) + CString(b, v.buf, v.len)
    ensures Total(vs + [v]) == Total(vs) + v.len
  {
    assert (vs + [v])[..|vs|] == vs;
  }

  /** One more descriptor adds its decoded buffer to the output and its
      length to the count. */
  lemma GatherStep(b: seq<byte>, w: int, i: nat)
    requires WordsInBounds(|b|, w, i + 1)
    ensures var v := IovecAt(b, w, i);
      && Gathered(b, Iovecs(b, w, i + 1)) == Gathered(b, Iovecs(b, w, i)) + CString(b, v.buf, v.len)
      && Total(Iovecs(b, w, i + 1)) == Total(Iovecs(b, w, i)) + v.len
  {
    IovecsSnoc(b, w, i);
    GatheredSnoc(b, Iovecs(b, w, i), IovecAt(b, w, i));
  }

  /** The emitted string is never longer than the reported count, and is
      exactly as long when no buffer holds a zero byte within its length. */
  lemma {:induction false} GatheredLength(b: seq<byte>, vs: seq<Iovec>)
    requires forall i :: 0 <= i < |vs| ==> vs[i].len >= 0
    ensures |Gathered(b, vs)| <= Total(vs)
    ensures |Gathered(b, vs)| == Total(vs) <==>
      forall i :: 0 <= i < |vs| ==> |CString(b, vs[i].buf, vs[i].len)| == vs[i].len
  {
    if vs != [] {
      var init := vs[..|vs| - 1];
      var last := vs[|vs| - 1];
      GatheredLength(b, init);
      CStringLength(b, last.buf, last.len);
      assert forall i :: 0 <= i < |init| ==> init[i] == vs[i];
    }
  }

  /** A write with two iovecs emits the two decoded buffers one after the
      other and reports the sum of the two lengths. */
  lemma GatheredPair(b: seq<byte>, x: Iovec, y: Iovec)
    ensures Gathered(b, [x, y]) == CString(b, x.buf, x.len) + CString(b, y.buf, y.len)
    ensures Total([x, y]) == x.len + y.len
  {
    assert [x, y][..1] == [x];
    assert [x][..0] == [];
    assert Gathered(b, [x]) == CString(b, x.buf, x.len);
    assert Total([x]) == x.len;
  }

  /** The example of a write of "abc" and "de": the output is "abcde" (the
      reported count, 3 + 2, is `GatheredPair`'s). */
  lemma GatherAbcDe(b: seq<byte>, bufA: nat, bufB: nat)
    requires bufA + 3 <= |b| && bufB + 2 <= |b|
    requires b[bufA..bufA + 3] == [97, 98, 99] && b[bufB..bufB + 2] == [100, 101]
    ensures Gathered(b, [Iovec(bufA, 3), Iovec(bufB, 2)]) == [97, 98, 99, 100, 101]
  {
    var abc: seq<byte> := [97, 98, 99];
    var de: seq<byte> := [100, 101];
    CStringText(b, bufA, abc);
    CStringText(b, bufB, de);
    PairText(b, Iovec(bufA, 3), Iovec(bufB, 2), abc, de);
  }

  /** Two buffers that decode to `s` and `t` are written as `s + t`. */
  lemma PairText(b: seq<byte>, x: Iovec, y: Iovec, s: JsString, t: JsString)
    requires CString(b, x.buf, x.len) == s && CString(b, y.buf, y.len) == t
    ensures Gathered(b, [x, y]) == s + t
  {
    GatheredPair(b, x, y);
  }

  // ---------------------------------------------------------------------
  // host_read
  // ---------------------------------------------------------------------

  /** How a read ends: normally, with the memory, the input cursor and the
      byte count; or with the exception a copy threw, with the memory and
      cursor as they were at that point (the count is then not stored). */
  datatype ScatterEnd<M> =
    | Done(bytes: M, pos: int, size: int)
    | Faulted(fault: Fault, bytes: M, pos: int)

  /** How one turn of the read loop ends: nothing left to copy (the
      loop's `break`), the copy threw, a copy shorter than the iovec (the
      loop stops after it) or a copy that filled it (the loop goes on). */
  datatype Turn =
    | Empty
    | Threw(fault: Fault)
    | Partial(count: nat)
    | Filled(count: nat)
  {
    /** The code units this turn copied. */
    function Copied(): nat {
      match this
      case Partial(n) => n
      case Filled(n) => n
      case _ => 0
    }
  }

  /** One turn of the read loop of `host_read` over the descriptor `v`,
      read from a memory of `size` bytes as it is when its turn comes: the
      count to copy is `min(len, remaining input)`. */
  function ReadTurn(v: Iovec, size: nat, input: JsString, pos: int): (t: Turn)
    requires 0 <= v.len && 0 <= pos <= |input|
    ensures !t.Threw? ==> t.Copied() == Min(v.len, |input| - pos)
    ensures t.Copied() <= |input| - pos
    ensures t.Copied() > 0 ==> ViewFault(size, false, v.buf, t.Copied()) == None
    ensures t.Filled? <==> t.Copied() == v.len > 0
  {
    var n := Min(v.len, |input| - pos);
    if n == 0 then Empty
    else match ViewFault(size, false, v.buf, n)
      case Some(f) => Threw(f)
      case None => if n != v.len then Partial(n) else Filled(n)
  }

  /** The memory after the turn over `v`: the copied code units stored as
      bytes into the iovec's buffer. */
  function TurnBytes(b: seq<byte>, v: Iovec, input: JsString, pos: int): (c: seq<byte>)
    requires 0 <= v.len && 0 <= pos <= |input|
    ensures |c| == |b|
  {
    var n := ReadTurn(v, |b|, input, pos).Copied();
    if n == 0 then b else Splice(b, v.buf, input[pos..pos + n])
  }

  /** The read loop of `host_read` from descriptor `i` on. */
  function Scatter(b: seq<byte>, w: int, i: nat, count: int, input: JsString, pos: int, size: int): (e: ScatterEnd<seq<byte>>)
    requires WordsInBounds(|b|, w, count)
    requires 0 <= pos <= |input|
    decreases count - i, 2
  {
    if i >= count then Done(b, pos, size) else ScatterRound(b, w, i, count, input, pos, size)
  }

  /** Turn `i` of the read loop. It only hands over to `ScatterTurn`: the
      extra level keeps a single unfolding of `Scatter` from already
      reading the descriptor. */
  function ScatterRound(b: seq<byte>, w: int, i: nat, count: int, input: JsString, pos: int, size: int): (e: ScatterEnd<seq<byte>>)
    requires WordsInBounds(|b|, w, count) && i < count
    requires 0 <= pos <= |input|
    decreases count - i, 1
  {
    ScatterTurn(b, w, i, count, input, pos, size)
  }

  /** Turn `i` of the read loop and, after a turn that filled its iovec,
      the turns after it. */
  function ScatterTurn(b: seq<byte>, w: int, i: nat, count: int, input: JsString, pos: int, size: int): (e: ScatterEnd<seq<byte>>)
    requires WordsInBounds(|b|, w, count) && i < count
    requires 0 <= pos <= |input|
    decreases count - i, 0
  {
    var v := IovecAt(b, w, i);
    var c := TurnBytes(b, v, input, pos);
    match ReadTurn(v, |b|, input, pos)
    case Empty => Done(b, pos, size)
    case Threw(f) => Faulted(f, b, pos)
    case Partial(n) => Done(c, pos + n, size + n)
    case Filled(n) => Scatter(c, w, i + 1, count, input, pos + n, size + n)
  }

  /** After a turn that filled its iovec the read goes on with the next
      descriptor, over the memory that turn left. A step equation of
      `Scatter`, unfolded through its layers for the proofs that use it. */
  lemma ScatterGoesOn(b: seq<byte>, w: int, i: nat, count: int, input: JsString, pos: int, size: int)
    requires WordsInBounds(|b|, w, count) && i < count
    requires 0 <= pos <= |input|
    requires ReadTurn(IovecAt(b, w, i), |b|, input, pos).Filled?
    ensures var v := IovecAt(b, w, i);
      var n := ReadTurn(v, |b|, input, pos).Copied();
      Scatter(b, w, i, count, input, pos, size) ==
        Scatter(TurnBytes(b, v, input, pos), w, i + 1, count, input, pos + n, size + n)
  {
    assert Scatter(b, w, i, count, input, pos, size) == ScatterTurn(b, w, i, count, input, pos, size);
  }

  /** After any other turn the read ends there: with the exception the
      copy threw, or with the memory, cursor and count that turn left. A
      step equation of `Scatter`. */
  lemma ScatterStops(b: seq<byte>, w: int, i: nat, count: int, input: JsString, pos: int, size: int)
    requires WordsInBounds(|b|, w, count) && i < count
    requires 0 <= pos <= |input|
    requires !ReadTurn(IovecAt(b, w, i), |b|, input, pos).Filled?
    ensures var v := IovecAt(b, w, i);
      var t := ReadTurn(v, |b|, input, pos);
      Scatter(b, w, i, count, input, pos, size) ==
        if t.Threw? then Faulted(t.fault, b, pos)
        else Done(TurnBytes(b, v, input, pos), pos + t.Copied(), size + t.Copied())
  {
    assert Scatter(b, w, i, count, input, pos, size) == ScatterTurn(b, w, i, count, input, pos, size);
  }

  /** The memory keeps its size and the cursor only moves forward, by
      exactly the count of code units copied, which is at most the
      remaining input. */
  lemma {:induction false} ScatterCursor(b: seq<byte>, w: int, i: nat, count: int, input: JsString, pos: int, size: int)
    requires WordsInBounds(|b|, w, count)
    requires 0 <= pos <= |input|
    ensures var e := Scatter(b, w, i, count, input, pos, size);
      && |e.bytes| == |b| && pos <= e.pos <= |input|
      && (e.Done? ==> e.pos - pos == e.size - size)
    decreases count - i
  {
    if i < count {
      assert Scatter(b, w, i, count, input, pos, size) == ScatterTurn(b, w, i, count, input, pos, size);
      var v := IovecAt(b, w, i);
      var t := ReadTurn(v, |b|, input, pos);
      if t.Filled? {
        var c := TurnBytes(b, v, input, pos);
        ScatterCursor(c, w, i + 1, count, input, pos + t.count, size + t.count);
      }
    }
  }

  /** A read when the input is already exhausted copies nothing, leaves
      the memory and the cursor alone and reports 0. */
  lemma ScatterExhausted(b: seq<byte>, w: int, count: int, input: JsString)
    requires WordsInBounds(|b|, w, count)
    ensures Scatter(b, w, 0, count, input, |input|, 0) == Done(b, |input|, 0)
  {
    if 0 < count {
      assert Scatter(b, w, 0, count, input, |input|, 0) == ScatterTurn(b, w, 0, count, input, |input|, 0);
    }
  }

  /** The lengths that a read can fill from iovec `k` on: those of the
      iovecs before the first one of length 0, at which the loop stops. */
  function FillableLength(vs: seq<Iovec>, k: nat): (n: int)
    ensures (forall i :: k <= i < |vs| ==> vs[i].len >= 0) ==> n >= 0
    decreases |vs| - k
  {
    if k >= |vs| || vs[k].len == 0 then 0 else vs[k].len + FillableLength(vs, k + 1)
  }

  /** Two memories agree on the bytes `[lo, hi)`. */
  ghost predicate AgreeOn(b: seq<byte>, c: seq<byte>, lo: int, hi: int) {
    |b| == |c| && forall k :: 0 <= lo <= k < hi && k < |b| ==> b[k] == c[k]
  }

  /** The copy into one iovec's buffer stays clear of the table and of the
      end of the memory. */
  ghost predicate ClearOfTable(vs: seq<Iovec>, n: nat, w: int) {
    forall i :: 0 <= i < |vs| ==>
      && vs[i].buf + vs[i].len <= n
      && (vs[i].buf + vs[i].len <= 4 * w || 4 * w + 8 * |vs| <= vs[i].buf)
  }

  /** A descriptor reads the same from two memories that agree on the
      table's words. */
  lemma DescriptorStable(b: seq<byte>, c: seq<byte>, w: int, count: int, i: int)
    requires 0 <= i < count && WordsInBounds(|b|, w, count)
    requires AgreeOn(b, c, 4 * w, 4 * w + 8 * count)
    ensures IovecAt(c, w, i) == IovecAt(b, w, i)
  {
    var k := w + 2 * i;
    assert b[4 * k] == c[4 * k] && b[4 * k + 1] == c[4 * k + 1];
    assert b[4 * k + 2] == c[4 * k + 2] && b[4 * k + 3] == c[4 * k + 3];
    assert b[4 * k + 4] == c[4 * k + 4] && b[4 * k + 5] == c[4 * k + 5];
    assert b[4 * k + 6] == c[4 * k + 6] && b[4 * k + 7] == c[4 * k + 7];
  }

  /** A store that lies outside `[lo, hi)` keeps two memories agreeing
      there. */
  lemma SpliceKeeps(b: seq<byte>, c: seq<byte>, o: int, vals: seq<int>, lo: int, hi: int)
    requires AgreeOn(b, c, lo, hi)
    requires 0 <= o && o + |vals| <= |c|
    requires o + |vals| <= lo || hi <= o
    ensures AgreeOn(b, Splice(c, o, vals), lo, hi)
  {
    SpliceBytes(c, o, vals);
  }

  /** The read loop over descriptors given up front, from iovec `k` on,
      instead of read from the memory as each turn comes. */
  function ScatterList(b: seq<byte>, vs: seq<Iovec>, k: nat, input: JsString, pos: int, size: int): (e: ScatterEnd<seq<byte>>)
    requires forall i :: 0 <= i < |vs| ==> 0 <= vs[i].len
    requires 0 <= pos <= |input|
    decreases |vs| - k, 2
  {
    if k >= |vs| then Done(b, pos, size) else ScatterListRound(b, vs, k, input, pos, size)
  }

  /** Turn `k` of the read loop over descriptors given up front, handed
      over to `ScatterListTurn` as `ScatterRound` does. */
  function ScatterListRound(b: seq<byte>, vs: seq<Iovec>, k: nat, input: JsString, pos: int, size: int): (e: ScatterEnd<seq<byte>>)
    requires forall i :: 0 <= i < |vs| ==> 0 <= vs[i].len
    requires 0 <= pos <= |input| && k < |vs|
    decreases |vs| - k, 1
  {
    ScatterListTurn(b, vs, k, input, pos, size)
  }

  /** Turn `k` of the read loop over descriptors given up front and, after
      a turn that filled its iovec, the turns after it. */
  function ScatterListTurn(b: seq<byte>, vs: seq<Iovec>, k: nat, input: JsString, pos: int, size: int): (e: ScatterEnd<seq<byte>>)
    requires forall i :: 0 <= i < |vs| ==> 0 <= vs[i].len
    requires 0 <= pos <= |input| && k < |vs|
    decreases |vs| - k, 0
  {
    var c := TurnBytes(b, vs[k], input, pos);
    match ReadTurn(vs[k], |b|, input, pos)
    case Empty => Done(b, pos, size)
    case Threw(f) => Faulted(f, b, pos)
    case Partial(n) => Done(c, pos + n, size + n)
    case Filled(n) => ScatterList(c, vs, k + 1, input, pos + n, size + n)
  }

  /** A turn that filled its iovec takes both loops on to the next
      descriptor over the same memory, so they agree when they agree from
      there on. */
  lemma UpFrontFilled(c: seq<byte>, w: int, i: nat, count: nat, vs: seq<Iovec>, input: JsString, pos: int, size: int)
    requires WordsInBounds(|c|, w, count) && i < count && i < |vs|
    requires 0 <= pos <= |input|
    requires forall k :: 0 <= k < |vs| ==> 0 <= vs[k].len
    requires vs[i] == IovecAt(c, w, i)
    requires ReadTurn(vs[i], |c|, input, pos).Filled?
    requires var n := ReadTurn(vs[i], |c|, input, pos).count;
      var c' := TurnBytes(c, vs[i], input, pos);
      Scatter(c', w, i + 1, count, input, pos + n, size + n) == ScatterList(c', vs, i + 1, input, pos + n, size + n)
    ensures Scatter(c, w, i, count, input, pos, size) == ScatterList(c, vs, i, input, pos, size)
  {
    ScatterGoesOn(c, w, i, count, input, pos, size);
    assert ScatterList(c, vs, i, input, pos, size) == ScatterListTurn(c, vs, i, input, pos, size);
  }

  /** Any other turn ends both loops the same way. */
  lemma UpFrontStops(c: seq<byte>, w: int, i: nat, count: nat, vs: seq<Iovec>, input: JsString, pos: int, size: int)
    requires WordsInBounds(|c|, w, count) && i < count && i < |vs|
    requires 0 <= pos <= |input|
    requires forall k :: 0 <= k < |vs| ==> 0 <= vs[k].len
    requires vs[i] == IovecAt(c, w, i)
    requires !ReadTurn(vs[i], |c|, input, pos).Filled?
    ensures Scatter(c, w, i, count, input, pos, size) == ScatterList(c, vs, i, input, pos, size)
  {
    ScatterStops(c, w, i, count, input, pos, size);
    assert ScatterList(c, vs, i, input, pos, size) == ScatterListTurn(c, vs, i, input, pos, size);
  }

  /** When no copy overwrites the table, reading each descriptor as its
      turn comes is the same as reading them all before the first copy. */
  lemma {:induction false} ScatterUpFront(b: seq<byte>, c: seq<byte>, w: int, i: nat, count: nat, input: JsString, pos: int, size: int)
    requires i <= count
    requires WordsInBounds(|b|, w, count)
    requires AgreeOn(b, c, 4 * w, 4 * w + 8 * count)
    requires ClearOfTable(Iovecs(b, w, count), |b|, w)
    requires 0 <= pos <= |input|
    ensures WordsInBounds(|c|, w, count)
    ensures Scatter(c, w, i, count, input, pos, size) == ScatterList(c, Iovecs(b, w, count), i, input, pos, size)
    decreases count - i
  {
    if i < count {
      var vs := Iovecs(b, w, count);
      DescriptorStable(b, c, w, count, i);
      var v := IovecAt(c, w, i);
      var t := ReadTurn(v, |c|, input, pos);
      if t.Filled? {
        SpliceKeeps(b, c, v.buf, input[pos..pos + t.count], 4 * w, 4 * w + 8 * count);
        ScatterUpFront(b, TurnBytes(c, v, input, pos), w, i + 1, count, input, pos + t.count, size + t.count);
        UpFrontFilled(c, w, i, count, vs, input, pos, size);
      } else {
        UpFrontStops(c, w, i, count, vs, input, pos, size);
      }
    }
  }

  /** Buffers that lie inside a memory of `n` bytes. */
  ghost predicate Inside(vs: seq<Iovec>, n: nat) {
    forall k :: 0 <= k < |vs| ==> 0 <= vs[k].buf && 0 <= vs[k].len && vs[k].buf + vs[k].len <= n
  }

  /** With every buffer inside the memory, a read from iovec `k` on copies
      `min(remaining input, fillable length)` code units and advances the
      cursor by exactly that. */
  lemma {:induction false} ScatterListTotal(b: seq<byte>, vs: seq<Iovec>, k: nat, input: JsString, pos: int, size: int)
    requires Inside(vs, |b|)
    requires 0 <= pos <= |input|
    ensures var e := ScatterList(b, vs, k, input, pos, size);
      var t := Min(|input| - pos, FillableLength(vs, k));
      e.Done? && e.size == size + t && e.pos == pos + t
    decreases |vs| - k
  {
    if k < |vs| {
      assert ScatterList(b, vs, k, input, pos, size) == ScatterListTurn(b, vs, k, input, pos, size);
      var t := ReadTurn(vs[k], |b|, input, pos);
      if t.Filled? {
        ScatterListTotal(TurnBytes(b, vs[k], input, pos), vs, k + 1, input, pos + t.count, size + t.count);
      }
    }
  }

  /** When no copy overwrites the table and every buffer lies inside the
      memory, `host_read` copies `min(remaining input, fillable length)`
      code units and advances the cursor by exactly that: with no iovec
      of length 0 this is `min(remaining input, sum of the lengths)`. */
  lemma ScatterTotal(b: seq<byte>, w: int, count: nat, input: JsString, pos: int)
    requires WordsInBounds(|b|, w, count)
    requires ClearOfTable(Iovecs(b, w, count), |b|, w)
    requires 0 <= pos <= |input|
    ensures var e := Scatter(b, w, 0, count, input, pos, 0);
      var t := Min(|input| - pos, FillableLength(Iovecs(b, w, count), 0));
      e.Done? && e.size == t && e.pos == pos + t
  {
    ScatterUpFront(b, b, w, 0, count, input, pos, 0);
    ScatterListTotal(b, Iovecs(b, w, count), 0, input, pos, 0);
  }

  /** With no iovec of length 0, `host_read` copies
      `min(remaining input, sum of the lengths)`. */
  lemma ScatterTotalNoEmpty(b: seq<byte>, w: int, count: nat, input: JsString, pos: int)
    requires WordsInBounds(|b|, w, count)
    requires ClearOfTable(Iovecs(b, w, count), |b|, w)
    requires forall i :: 0 <= i < count ==> IovecAt(b, w, i).len > 0
    requires 0 <= pos <= |input|
    ensures var e := Scatter(b, w, 0, count, input, pos, 0);
      var t := Min(|input| - pos, Total(Iovecs(b, w, count)));
      e.Done? && e.size == t && e.pos == pos + t
  {
    ScatterTotal(b, w, count, input, pos);
    FillableIsTotal(Iovecs(b, w, count));
  }

  /** When no iovec has length 0 the fillable length is the sum of all
      the lengths. */
  lemma FillableIsTotal(vs: seq<Iovec>)
    requires forall i :: 0 <= i < |vs| ==> vs[i].len > 0
    ensures FillableLength(vs, 0) == Total(vs)
  {
    FillableFrom(vs, 0);
    assert vs[0..] == vs;
  }

  lemma {:induction false} FillableFrom(vs: seq<Iovec>, k: nat)
    requires k <= |vs| && forall i :: k <= i < |vs| ==> vs[i].len > 0
    ensures FillableLength(vs, k) == Total(vs[k..])
    decreases |vs| - k
  {
    if k < |vs| {
      FillableFrom(vs, k + 1);
      assert vs[k..] == [vs[k]] + vs[k + 1..];
      TotalCons(vs[k], vs[k + 1..]);
    } else {
      assert vs[k..] == [];
    }
  }

  /** The sum of the lengths, taken from the front. */
  lemma {:induction false} TotalCons(v: Iovec, rest: seq<Iovec>)
    ensures Total([v] + rest) == v.len + Total(rest)
    decreases |rest|
  {
    if rest == [] {
      assert [v] + rest == [v];
      assert [v][..0] == [];
    } else {
      var init := rest[..|rest| - 1];
      assert ([v] + rest)[..|rest|] == [v] + init;
      TotalCons(v, init);
    }
  }

  // ---------------------------------------------------------------------
  // The MemFS object
  // ---------------------------------------------------------------------

  /** The host side of the filesystem module: its memory, the memory of
      the guest module currently wired to it, the stdin string with its
      cursor, the output sink and the console. */
  class MemFS {
    const mem: Memory
    var hostMem: Memory?
    var stdinStr: JsString
    var stdinStrPos: int
    /** Every string handed to the host's output sink, in order. */
    var written: seq<JsString>
    /** Every line logged to the console by `memfs_log`, in order. */
    var logged: seq<JsString>
    /** Every node the host has created, in order. */
    var nodes: seq<Node>

    ghost predicate Valid()
      reads this, mem, mem.buffer, mem.memory, mem.memory.buffer, hostMem
      reads if hostMem == null then {} else {hostMem.buffer, hostMem.memory, hostMem.memory.buffer}
    {
      && mem.Valid()
      && 0 <= stdinStrPos <= |stdinStr|
      && (hostMem != null ==>
        && hostMem.Valid()
        && hostMem != mem
        && hostMem.memory != mem.memory
        && hostMem.memory.buffer != mem.memory.buffer
        && hostMem.memory.buffer.data != mem.memory.buffer.data)
    }

    /** The live bytes of the guest's memory, what `check` makes visible. */
    ghost function HostBytes(): seq<byte>
      requires hostMem != null
      reads this, hostMem, hostMem.memory, hostMem.memory.buffer, hostMem.memory.buffer.data
    {
      hostMem.memory.buffer.data[..]
    }

    /** The live bytes of the filesystem module's memory. */
    ghost function FsBytes(): seq<byte>
      reads this, mem.memory, mem.memory.buffer, mem.memory.buffer.data
    {
      mem.memory.buffer.data[..]
    }

    /** The state once the filesystem module is instantiated (the module's
      compilation and instantiation are not part of this model). */
    constructor (mem: Memory, stdinStr: JsString)
      requires mem.Valid()
      ensures Valid() && this.mem == mem && hostMem == null
      ensures this.stdinStr == stdinStr && stdinStrPos == 0
      ensures written == [] && logged == [] && nodes == []
    {
      this.mem := mem;
      hostMem := null;
      this.stdinStr := stdinStr;
      stdinStrPos := 0;
      written := [];
      logged := [];
      nodes := [];
    }

    /** The `hostMem` setter: wire the memory of the guest about to run. */
    method SetHostMem(m: Memory)
      requires Valid() && m.Valid()
      requires m != mem && m.memory != mem.memory && m.memory.buffer != mem.memory.buffer
      requires m.memory.buffer.data != mem.memory.buffer.data
      modifies this`hostMem
      ensures Valid() && hostMem == m
    {
      hostMem := m;
    }

    /** `setStdinStr(str)`: new input, read from its start. */
    method SetStdinStr(str: JsString)
      requires Valid()
      modifies this`stdinStr, this`stdinStrPos
      ensures Valid() && stdinStr == str && stdinStrPos == 0
    {
      stdinStr := str;
      stdinStrPos := 0;
    }

    /** `addDirectory(path)`, recorded as a node. */
    method AddDirectory(path: JsString)
      modifies this`nodes
      ensures nodes == old(nodes) + [DirectoryNode(path)]
    {
      nodes := nodes + [DirectoryNode(path)];
    }

    /** `addFile(path, contents)`, recorded as a node. */
    method AddFile(path: JsString, contents: seq<byte>)
      modifies this`nodes
      ensures nodes == old(nodes) + [FileNode(path, contents)]
    {
      nodes := nodes + [FileNode(path, contents)];
    }

    /** `abort()`: the guest asked for abnormal termination. */
    method Abort() returns (r: Result<()>)
      ensures r == Err(AbortError)
    {
      r := Err(AbortError);
    }

    /** `host_write(fd, iovs, iovs_len, nwritten_out)`. Before the `hostMem`
      setter has run, `this.hostMem_.check()` throws a `TypeError`. */
    method HostWrite(fd: int, iovs: int, iovsLen: int, nwrittenOut: int) returns (r: Result<int>)
      requires Valid()
      requires hostMem != null ==> TableInBounds(hostMem.memory.buffer.data.Length, iovs, iovsLen)
      modifies hostMem, this`written
      modifies if hostMem == null then {} else {hostMem.memory.buffer.data}
      ensures Valid() && hostMem == old(hostMem)
      ensures hostMem == null ==> r == Err(TypeError) && written == old(written)
      ensures hostMem != null ==> hostMem.Live()
      ensures hostMem != null && fd > 2 ==>
        r == Err(AssertError) && written == old(written) && HostBytes() == old(HostBytes())
      ensures hostMem != null && fd <= 2 ==>
        var vs := Iovecs(old(HostBytes()), WordIndex(iovs), Max(0, iovsLen));
        && r == Ok(ESUCCESS)
        && written == old(written) + [Gathered(old(HostBytes()), vs)]
        && HostBytes() == Store32(old(HostBytes()), nwrittenOut, Total(vs))
    {
      if hostMem == null {
        return Err(TypeError);
      }
      hostMem.Check();
      if !(fd <= 2) {
        return Err(AssertError);
      }
      var str, size := Gather(hostMem, iovs, iovsLen);
      hostMem.Write32(nwrittenOut, size);
      written := written + [str];
      r := Ok(ESUCCESS);
    }

    /** `host_read(fd, iovs, iovs_len, nread)`. Before the `hostMem` setter
      has run, `this.hostMem_.check()` throws a `TypeError`. */
    method HostRead(fd: int, iovs: int, iovsLen: int, nread: int) returns (r: Result<int>)
      requires Valid()
      requires hostMem != null ==> TableInBounds(hostMem.memory.buffer.data.Length, iovs, iovsLen)
      modifies hostMem, this`stdinStrPos
      modifies if hostMem == null then {} else {hostMem.memory.buffer.data}
      ensures Valid() && hostMem == old(hostMem)
      ensures hostMem == null ==> r == Err(TypeError) && stdinStrPos == old(stdinStrPos)
      ensures hostMem != null ==> hostMem.Live()
      ensures hostMem != null && fd != 0 ==>
        r == Err(AssertError) && stdinStrPos == old(stdinStrPos) && HostBytes() == old(HostBytes())
      ensures hostMem != null && fd == 0 ==>
        match Scatter(old(HostBytes()), WordIndex(iovs), 0, iovsLen, stdinStr, old(stdinStrPos), 0)
        case Done(b, pos, size) =>
          r == Ok(ESUCCESS) && stdinStrPos == pos && HostBytes() == Store32(b, nread, size)
        case Faulted(f, b, pos) =>
          r == Err(f) && stdinStrPos == pos && HostBytes() == b
    {
      if hostMem == null {
        return Err(TypeError);
      }
      hostMem.Check();
      if !(fd == 0) {
        return Err(AssertError);
      }
      ScatterCursor(HostBytes(), WordIndex(iovs), 0, iovsLen, stdinStr, stdinStrPos, 0);
      var fault, pos, size := ScatterInput(hostMem, iovs, iovsLen, stdinStr, stdinStrPos);
      stdinStrPos := pos;
      if fault.Some? {
        return Err(fault.value);
      }
      hostMem.Write32(nread, size);
      r := Ok(ESUCCESS);
    }

    /** `memfs_log(buf, len)`: a diagnostic string from the filesystem
      module's own memory, sent to the console. */
    method MemfsLog(buf: int, len: int)
      requires Valid()
      modifies mem, this`logged
      ensures Valid() && mem.Live()
      ensures logged == old(logged) + [CString(FsBytes(), buf, len)]
    {
      mem.Check();
      var s := mem.ReadStr(buf, len);
      logged := logged + [s];
    }

    /** `copy_out(clang_dst, memfs_src, size)`: bytes from the filesystem
      module's memory into the guest's. The destination view is built
      first, after checking the guest's memory; the filesystem memory is
      checked only once that view exists. With no guest memory wired, the
      first `check` throws a `TypeError`. */
    method CopyOut(clangDst: int, memfsSrc: int, size: int) returns (r: Result<()>)
      requires Valid()
      modifies hostMem, mem
      modifies if hostMem == null then {} else {hostMem.memory.buffer.data}
      ensures Valid() && hostMem == old(hostMem)
      ensures FsBytes() == old(FsBytes())
      ensures hostMem == null ==> r == Err(TypeError) && mem.buffer == old(mem.buffer)
      ensures hostMem != null ==> hostMem.Live() && match ViewFault(|old(HostBytes())|, false, clangDst, size)
        case Some(f) => r == Err(f) && HostBytes() == old(HostBytes()) && mem.buffer == old(mem.buffer)
        case None => mem.Live() && match ViewFault(|old(FsBytes())|, false, memfsSrc, size)
          case Some(f) => r == Err(f) && HostBytes() == old(HostBytes())
          case None => (r == Ok(()) &&
            HostBytes() == Splice(old(HostBytes()), clangDst, old(FsBytes())[memfsSrc..memfsSrc + size]))
    {
      if hostMem == null {
        return Err(TypeError);
      }
      hostMem.Check();
      var dstFault := ViewFault(hostMem.buffer.data.Length, hostMem.buffer.detached, clangDst, size);
      if dstFault.Some? {
        return Err(dstFault.value);
      }
      mem.Check();
      var srcFault := ViewFault(mem.buffer.data.Length, mem.buffer.detached, memfsSrc, size);
      if srcFault.Some? {
        return Err(srcFault.value);
      }
      CopyBytes(hostMem.buffer.data, clangDst, mem.buffer.data, memfsSrc, size);
      r := Ok(());
    }

    /** `copy_in(memfs_dst, clang_src, size)`: bytes from the guest's
      memory into the filesystem module's. The filesystem memory is checked
      and its view built first; with no guest memory wired, the guest's
      `check` then throws a `TypeError`. */
    method CopyIn(memfsDst: int, clangSrc: int, size: int) returns (r: Result<()>)
      requires Valid()
      modifies hostMem, mem, mem.memory.buffer.data
      ensures Valid() && hostMem == old(hostMem) && mem.Live()
      ensures hostMem != null ==> HostBytes() == old(HostBytes())
      ensures match ViewFault(|old(FsBytes())|, false, memfsDst, size)
        case Some(f) =>
          r == Err(f) && FsBytes() == old(FsBytes()) && (hostMem != null ==> hostMem.buffer == old(hostMem.buffer))
        case None => if hostMem == null then r == Err(TypeError) && FsBytes() == old(FsBytes())
          else hostMem.Live() && match ViewFault(|old(HostBytes())|, false, clangSrc, size)
          case Some(f) => r == Err(f) && FsBytes() == old(FsBytes())
          case None => (r == Ok(()) &&
            FsBytes() == Splice(old(FsBytes()), memfsDst, old(HostBytes())[clangSrc..clangSrc + size]))
    {
      mem.Check();
      var dstFault := ViewFault(mem.buffer.data.Length, mem.buffer.detached, memfsDst, size);
      if dstFault.Some? {
        return Err(dstFault.value);
      }
      if hostMem == null {
        return Err(TypeError);
      }
      hostMem.Check();
      var srcFault := ViewFault(hostMem.buffer.data.Length, hostMem.buffer.detached, clangSrc, size);
      if srcFault.Some? {
        return Err(srcFault.value);
      }
      CopyBytes(mem.buffer.data, memfsDst, hostMem.buffer.data, clangSrc, size);
      r := Ok(());
    }
  }

  /** The loop of `host_write`: read each descriptor, decode its buffer
    and add up the lengths. */
  method Gather(m: Memory, iovs: int, iovsLen: int) returns (str: JsString, size: int)
    requires TableInBounds(|m.Bytes()|, iovs, iovsLen)
    ensures var vs := Iovecs(m.Bytes(), WordIndex(iovs), Max(0, iovsLen));
      str == Gathered(m.Bytes(), vs) && size == Total(vs)
  {
    ghost var b := m.Bytes();
    ghost var w := WordIndex(iovs);
    size := 0;
    str := [];
    var p := iovs;
    var i := 0;
    while i < iovsLen
      invariant 0 <= i <= Max(0, iovsLen)
      invariant p == iovs + 8 * i
      invariant str == Gathered(b, Iovecs(b, w, i)) && size == Total(Iovecs(b, w, i))
    {
      var v := ReadIovec(m, p, iovs, i, iovsLen);
      p := p + 8;
      var s := m.ReadStr(v.buf, v.len);
      GatherStep(b, w, i);
      str := str + s;
      size := size + v.len;
      i := i + 1;
    }
    assert i == Max(0, iovsLen);
  }

  /** The loop of `host_read`: fill the buffers in iovec order from the
    input at `pos0`, each with `min(len, remaining input)` code units,
    stopping after a buffer that got fewer than its length or none at all;
    a copy that throws ends the read at that point. */
  method ScatterInput(m: Memory, iovs: int, iovsLen: int, input: JsString, pos0: int)
    returns (fault: Option<Fault>, pos: int, size: int)
    requires m.Valid() && m.Live()
    requires TableInBounds(|m.Bytes()|, iovs, iovsLen)
    requires 0 <= pos0 <= |input|
    modifies m.buffer.data
    ensures match Scatter(old(m.Bytes()), WordIndex(iovs), 0, iovsLen, input, pos0, 0)
      case Done(b, p, n) => fault == None && pos == p && size == n && m.Bytes() == b
      case Faulted(f, b, p) => fault == Some(f) && pos == p && m.Bytes() == b
  {
    ghost var w := WordIndex(iovs);
    ghost var goal := Scatter(m.Bytes(), w, 0, iovsLen, input, pos0, 0);
    fault, pos, size := None, pos0, 0;
    var p := iovs;
    var i := 0;
    while i < iovsLen
      invariant 0 <= i <= Max(0, iovsLen)
      invariant p == iovs + 8 * i
      invariant 0 <= pos <= |input|
      invariant m.Valid() && m.Live()
      invariant fault == None && |m.Bytes()| == |old(m.Bytes())|
      invariant Scatter(m.Bytes(), w, i, iovsLen, input, pos, size) == goal
    {
      var v := ReadIovec(m, p, iovs, i, iovsLen);
      ghost var before, at, sizeBefore := m.Bytes(), pos, size;
      var stop;
      stop, fault, pos, size := CopyTurn(m, v, input, pos, size);
      if stop {
        ScatterStops(before, w, i, iovsLen, input, at, sizeBefore);
        return;
      }
      ScatterGoesOn(before, w, i, iovsLen, input, at, sizeBefore);
      p := p + 8;
      i := i + 1;
    }
  }

  /** Descriptor `i` read word by word at `p`, as both loops do. */
  method ReadIovec(m: Memory, p: int, ghost iovs: int, ghost i: nat, ghost count: int) returns (v: Iovec)
    requires TableInBounds(|m.Bytes()|, iovs, count) && i < count && p == iovs + 8 * i
    ensures WordsInBounds(|m.Bytes()|, WordIndex(iovs), count)
    ensures v == IovecAt(m.Bytes(), WordIndex(iovs), i)
  {
    DescriptorRead(m.Bytes(), iovs, count, i);
    var buf := m.Read32(p);
    var len := m.Read32(p + 4);
    v := Iovec(buf.value, len.value);
  }

  /** The copy of one turn of the loop of `host_read` into the buffer of
    `v`; `stop` is the loop's `break`. */
  method CopyTurn(m: Memory, v: Iovec, input: JsString, pos0: int, size0: int)
    returns (stop: bool, fault: Option<Fault>, pos: int, size: int)
    requires m.Valid() && m.Live()
    requires 0 <= v.len && 0 <= pos0 <= |input|
    modifies m.buffer.data
    ensures m.Valid() && m.Live()
    ensures var t := ReadTurn(v, |old(m.Bytes())|, input, pos0);
      && stop == !t.Filled?
      && fault == (if t.Threw? then Some(t.fault) else None)
      && pos == pos0 + t.Copied() && size == size0 + t.Copied()
      && m.Bytes() == TurnBytes(old(m.Bytes()), v, input, pos0)
  {
    var lenToWrite := Min(v.len, |input| - pos0);
    stop, fault, pos, size := true, None, pos0, size0;
    if lenToWrite == 0 {
      return;
    }
    var res := m.Write(v.buf, Text(input[pos0..pos0 + lenToWrite]));
    if res.Err? {
      fault := Some(res.fault);
      return;
    }
    size := size + lenToWrite;
    pos := pos + lenToWrite;
    stop := lenToWrite != v.len;
  }

  /** `dst.set(src)` for two byte views over different buffers. */
  method CopyBytes(dst: array<byte>, d: int, src: array<byte>, s: int, size: int)
    requires dst != src
    requires 0 <= d && 0 <= s && 0 <= size && d + size <= dst.Length && s + size <= src.Length
    modifies dst
    ensures dst[..] == Splice(old(dst[..]), d, src[s..s + size])
  {
    var i := 0;
    while i < size
      invariant 0 <= i <= size
      invariant dst[..] == Splice(old(dst[..]), d, src[s..s + i])
    {
      SpliceSnoc(old(dst[..]), d, src[s..s + i], src[s + i]);
      dst[d + i] := src[s + i];
      assert src[s..s + i + 1] == src[s..s + i] + [src[s + i]];
      i := i + 1;
    }
  }
}
