/** The `Tar` reader of the runtime: it walks the 512-byte blocks of a tar
    archive in the GNU flavour of the ustar format (the header layout of
    the "ustar Interchange Format" of POSIX.1, IEEE Std 1003.1, with the
    magic and version fields reading `"ustar  "`), and replays its regular
    files and directories into the filesystem. */
module TarReader {
  import opened Base
  import opened CStrings
  import opened Syscalls

  // ---------------------------------------------------------------------
  // parseInt(s, 8)
  // ---------------------------------------------------------------------

  /** The code units that `parseInt` skips before the number: white space
      and line terminators. */
  predicate IsStrWhiteSpace(c: CodeUnit) {
    || c == 0x09 || c == 0x0A || c == 0x0B || c == 0x0C || c == 0x0D
    || c == 0x20 || c == 0xA0 || c == 0x1680 || 0x2000 <= c <= 0x200A
    || c == 0x2028 || c == 0x2029 || c == 0x202F || c == 0x205F || c == 0x3000
    || c == 0xFEFF
  }

  predicate IsOctalDigit(c: CodeUnit) {
    0x30 <= c <= 0x37
  }

  /** The string without its leading white space. */
  function TrimStart(s: JsString): (t: JsString)
    ensures |t| <= |s|
  {
    if s != [] && IsStrWhiteSpace(s[0]) then TrimStart(s[1..]) else s
  }

  /** What is trimmed is a prefix of white space, and what is left does
      not start with white space. */
  lemma {:induction false} TrimStartSpec(s: JsString)
    ensures var t := TrimStart(s);
      && t == s[|s| - |t|..]
      && (t == [] || !IsStrWhiteSpace(t[0]))
      && forall k :: 0 <= k < |s| - |t| ==> IsStrWhiteSpace(s[k])
  {
    if s != [] && IsStrWhiteSpace(s[0]) {
      TrimStartSpec(s[1..]);
      var t := TrimStart(s);
      assert s[1..][|s[1..]| - |t|..] == s[|s| - |t|..];
      forall k | 0 < k < |s| - |t| ensures IsStrWhiteSpace(s[k]) {
        assert s[k] == s[1..][k - 1];
      }
    }
  }

  /** The length of the run of octal digits that starts the string. */
  function DigitRun(s: JsString): (k: nat)
    ensures k <= |s|
  {
    if s != [] && IsOctalDigit(s[0]) then 1 + DigitRun(s[1..]) else 0
  }

  /** The run holds only digits and stops at the end or before a
      non-digit. */
  lemma {:induction false} DigitRunSpec(s: JsString)
    ensures var k := DigitRun(s);
      && (forall i :: 0 <= i < k ==> IsOctalDigit(s[i]))
      && (k == |s| || !IsOctalDigit(s[k]))
  {
    if s != [] && IsOctalDigit(s[0]) {
      DigitRunSpec(s[1..]);
      forall i | 0 < i < DigitRun(s) ensures IsOctalDigit(s[i]) {
        assert s[i] == s[1..][i - 1];
      }
      if DigitRun(s) < |s| {
        assert s[DigitRun(s)] == s[1..][DigitRun(s) - 1];
      }
    }
  }

  /** The number a run of octal digits denotes. */
  function OctalValue(d: JsString): int
  {
    if d == [] then 0 else OctalValue(d[..|d| - 1]) * 8 + (d[|d| - 1] as int - 0x30)
  }

  /** The longest run of octal digits at the start, read as a number;
      None when there is none. */
  function ParseDigits(u: JsString): Option<int> {
    var k := DigitRun(u);
    if k == 0 then None else Some(OctalValue(u[..k]))
  }

  /** `parseInt(s, 8)`: skip white space, take one sign, then the longest
      run of octal digits; `NaN` (None) when that run is empty. A negative
      zero is modelled as 0. */
  function ParseOctal(s: JsString): Option<int> {
    var t := TrimStart(s);
    if t != [] && t[0] == 0x2D then
      match ParseDigits(t[1..])
      case None => None
      case Some(v) => Some(-v)
    else if t != [] && t[0] == 0x2B then ParseDigits(t[1..])
    else ParseDigits(t)
  }

  /** The digits of `n` in base 8, most significant first, without leading
      zeros: how a tar writer renders a numeric field before padding it. */
  function OctalDigits(n: nat): (d: JsString)
    ensures |d| >= 1 && forall i :: 0 <= i < |d| ==> IsOctalDigit(d[i])
  {
    if n < 8 then [0x30 + n] else OctalDigits(n / 8) + [0x30 + n % 8]
  }

  /** `k` zero digits, the padding of a numeric header field. */
  function Zeros(k: nat): (z: JsString)
    ensures |z| == k && forall i :: 0 <= i < k ==> z[i] == 0x30
  {
    if k == 0 then [] else Zeros(k - 1) + [0x30]
  }

  /** Appending a digit multiplies the value by 8 and adds the digit. */
  lemma OctalValueSnoc(d: JsString, c: CodeUnit)
    requires forall i :: 0 <= i < |d| ==> IsOctalDigit(d[i])
    requires IsOctalDigit(c)
    ensures OctalValue(d + [c]) == OctalValue(d) * 8 + (c - 0x30)
  {
    assert (d + [c])[..|d|] == d;
  }

  /** Reading back the rendered digits gives the number. */
  lemma {:induction false} OctalValueDigits(n: nat)
    ensures OctalValue(OctalDigits(n)) == n
  {
    if n >= 8 {
      OctalValueDigits(n / 8);
      OctalValueSnoc(OctalDigits(n / 8), 0x30 + n % 8);
    }
  }

  /** Leading zero digits do not change the value. */
  lemma {:induction false} OctalValueZeros(k: nat, d: JsString)
    requires forall i :: 0 <= i < |d| ==> IsOctalDigit(d[i])
    ensures OctalValue(Zeros(k) + d) == OctalValue(d)
    decreases |d|
  {
    if d == [] {
      assert Zeros(k) + d == Zeros(k);
      OctalValueOfZeros(k);
    } else {
      var init := d[..|d| - 1];
      assert Zeros(k) + d == (Zeros(k) + init) + [d[|d| - 1]];
      OctalValueSnoc(Zeros(k) + init, d[|d| - 1]);
      OctalValueZeros(k, init);
    }
  }

  lemma {:induction false} OctalValueOfZeros(k: nat)
    ensures OctalValue(Zeros(k)) == 0
  {
    if k > 0 {
      OctalValueOfZeros(k - 1);
      OctalValueSnoc(Zeros(k - 1), 0x30);
    }
  }

  /** The run of digits of a field ends where the digits end. */
  lemma DigitRunOf(d: JsString, rest: JsString)
    requires forall i :: 0 <= i < |d| ==> IsOctalDigit(d[i])
    requires rest == [] || !IsOctalDigit(rest[0])
    ensures DigitRun(d + rest) == |d|
  {
    DigitRunSpec(d + rest);
    assert forall i :: 0 <= i < |d| ==> (d + rest)[i] == d[i];
    if rest != [] {
      assert (d + rest)[|d|] == rest[0];
    }
  }

  /** White space in front of a string that does not start with white
      space is all that `TrimStart` removes. */
  lemma TrimLead(lead: JsString, t: JsString)
    requires forall i :: 0 <= i < |lead| ==> IsStrWhiteSpace(lead[i])
    requires t != [] && !IsStrWhiteSpace(t[0])
    ensures TrimStart(lead + t) == t
  {
    var s := lead + t;
    TrimStartSpec(s);
    assert s[|lead|] == t[0];
    assert forall k :: 0 <= k < |lead| ==> s[k] == lead[k];
  }

  /** Digits followed by a non-digit (or nothing) read as their value. */
  lemma ParseDigitsOf(d: JsString, rest: JsString)
    requires d != [] && forall i :: 0 <= i < |d| ==> IsOctalDigit(d[i])
    requires rest == [] || !IsOctalDigit(rest[0])
    ensures ParseDigits(d + rest) == Some(OctalValue(d))
  {
    DigitRunOf(d, rest);
    assert (d + rest)[..|d|] == d;
  }

  /** A numeric header field as a tar writer fills it: optional white
      space, an optional sign, zero padding, the octal digits of `n`, then
      a terminator that is not a digit (a space, or nothing once `readStr`
      has stopped at the NUL). `parseInt(_, 8)` reads back `n`, negated
      after a minus sign. */
  lemma ParseOctalField(lead: JsString, sign: JsString, pad: nat, n: nat, rest: JsString)
    requires forall i :: 0 <= i < |lead| ==> IsStrWhiteSpace(lead[i])
    requires sign == [] || sign == [0x2B] || sign == [0x2D]
    requires rest == [] || !IsOctalDigit(rest[0])
    ensures ParseOctal(lead + sign + Zeros(pad) + OctalDigits(n) + rest) ==
      Some(if sign == [0x2D] then 0 - n else n)
  {
    var d := Zeros(pad) + OctalDigits(n);
    PaddedDigits(pad, n);
    ParseDigitsOf(d, rest);
    var u := d + rest;
    AppendAssoc(lead + sign, Zeros(pad), OctalDigits(n));
    AppendAssoc(lead + sign, d, rest);
    AppendAssoc(lead, sign, u);
    ParseSigned(lead, sign, u);
  }

  /** After white space, a sign (or none) in front of digits that read as
      `v` reads as `v` with that sign. */
  lemma ParseSigned(lead: JsString, sign: JsString, u: JsString)
    requires forall i :: 0 <= i < |lead| ==> IsStrWhiteSpace(lead[i])
    requires sign == [] || sign == [0x2B] || sign == [0x2D]
    requires u != [] && IsOctalDigit(u[0]) && ParseDigits(u).Some?
    ensures ParseOctal(lead + (sign + u)) ==
      Some(if sign == [0x2D] then 0 - ParseDigits(u).value else ParseDigits(u).value)
  {
    var t := sign + u;
    assert t[0] == if sign == [] then u[0] else sign[0];
    TrimLead(lead, t);
    if sign != [] {
      assert t[1..] == u;
    } else {
      assert t == u;
    }
  }

  /** A zero-padded rendering is a non-empty run of digits worth `n`. */
  lemma PaddedDigits(pad: nat, n: nat)
    ensures var d := Zeros(pad) + OctalDigits(n);
      && d != [] && (forall i :: 0 <= i < |d| ==> IsOctalDigit(d[i])) && OctalValue(d) == n
  {
    var z, e := Zeros(pad), OctalDigits(n);
    forall i | 0 <= i < |z + e| ensures IsOctalDigit((z + e)[i]) {
      if i < |z| {
        assert (z + e)[i] == z[i];
      } else {
        assert (z + e)[i] == e[i - |z|];
      }
    }
    OctalValueZeros(pad, e);
    OctalValueDigits(n);
  }

  lemma AppendAssoc<T>(a: seq<T>, b: seq<T>, c: seq<T>)
    ensures a + b + c == a + (b + c)
  {
  }

  // ---------------------------------------------------------------------
  // Offsets and views
  // ---------------------------------------------------------------------

  /** `(x + 511) & ~511`: both operands go through ToInt32 and the low nine
      bits are cleared, which rounds down to a multiple of 512 in two's
      complement. */
  function AlignedUp(x: int): (a: int)
    ensures -0x8000_0000 <= a < 0x8000_0000
  {
    var y := ToInt32(x + 511);
    y - y % 512
  }

  /** Without 32-bit overflow the result is the multiple of 512 in
      `[x, x + 512)`, that is the least multiple of 512 that is at least
      `x`. */
  lemma AlignedUpRounds(x: int)
    requires -0x8000_0000 <= x && x + 511 < 0x8000_0000
    ensures AlignedUp(x) % 512 == 0 && x <= AlignedUp(x) < x + 512
  {
    var y := x + 511;
    assert ToInt32(y) == y;
    var q := y / 512;
    assert y - y % 512 == 512 * q;
    assert (512 * q) % 512 == 0;
  }

  /** No multiple of 512 at least `x` lies below `AlignedUp(x)`. */
  lemma AlignedUpLeast(x: int, m: int)
    requires -0x8000_0000 <= x && x + 511 < 0x8000_0000
    requires m % 512 == 0 && x <= m
    ensures AlignedUp(x) <= m
  {
    AlignedUpRounds(x);
  }

  /** Aligning an aligned offset leaves it alone. */
  lemma AlignedUpIdempotent(x: int)
    requires -0x8000_0000 <= x && x + 511 < 0x8000_0000
    ensures AlignedUp(AlignedUp(x)) == AlignedUp(x)
  {
    AlignedUpRounds(x);
    var a := AlignedUp(x);
    var k := a / 512;
    assert a == 512 * k;
    assert k < 0x40_0000;
    assert ToInt32(a + 511) == 512 * k + 511;
    assert (512 * k + 511) % 512 == 511;
  }

  /** Aligning the end of the header fields of a header at a block
      boundary gives the next block boundary: a header takes one block. */
  lemma HeaderBlock(o: int)
    requires 0 <= o && o % 512 == 0 && o + 1024 <= 0x8000_0000
    ensures AlignedUp(o + 500) == o + 512
  {
    var q := o / 512;
    assert o == 512 * q;
    assert ToInt32(o + 1011) == 512 * q + 1011;
    assert (512 * q + 1011) % 512 == 499;
  }

  /** The index a `subarray` bound designates: a negative one counts from
      the end, and either is clamped to the array. */
  function Clamp(rel: int, len: nat): (k: nat)
    ensures k <= len
    ensures 0 <= rel <= len ==> k == rel
    ensures len < rel ==> k == len
  {
    if rel < 0 then Max(len + rel, 0) else Min(rel, len)
  }

  /** `u8.subarray(begin, end)` with `end` a number or `NaN` (None, read as
      0): the bytes between the clamped bounds, or none when they cross. */
  function Subarray(u8: seq<byte>, begin: int, end: Option<int>): (s: seq<byte>)
    ensures |s| <= |u8|
  {
    var lo := Clamp(begin, |u8|);
    var hi := match end case None => 0 case Some(e) => Clamp(e, |u8|);
    if lo < hi then u8[lo..hi] else []
  }

  /** A view from inside the array forwards takes the bytes up to its
      end, or up to the end of the array if that comes first. */
  lemma SubarrayForward(u8: seq<byte>, lo: int, hi: int)
    requires 0 <= lo <= |u8| && lo <= hi
    ensures Subarray(u8, lo, Some(hi)) == u8[lo..Min(hi, |u8|)]
  {
  }

  // ---------------------------------------------------------------------
  // readEntry
  // ---------------------------------------------------------------------

  /** The magic and version fields of a GNU header, up to their NUL. */
  const Magic: JsString := [0x75, 0x73, 0x74, 0x61, 0x72, 0x20, 0x20]
  /** The type flags of a regular file and of a directory. */
  const FileFlag: JsString := [0x30]
  const DirectoryFlag: JsString := [0x35]

  /** What `readEntry` returns: the header's fields, each as `readStr` or
      `readOctal` decodes it, and for a regular file its contents. */
  datatype Entry = Entry(
    filename: JsString,
    mode: Option<int>,
    owner: Option<int>,
    group: Option<int>,
    size: Option<int>,
    mtim: Option<int>,
    checksum: Option<int>,
    typeFlag: JsString,
    linkname: JsString,
    ownerName: JsString,
    groupName: JsString,
    devMajor: JsString,
    devMinor: JsString,
    filenamePrefix: JsString,
    contents: Option<seq<byte>>)

  /** The outcome of one `readEntry`: the entry, `null` (None) or the
      exception thrown, and where the cursor is left. */
  datatype EntryRead = EntryRead(entry: Result<Option<Entry>>, offset: int)

  /** The header field at byte `at` of the header at `o`, `len` bytes
      wide, as `readStr` decodes it. */
  function Field(u8: seq<byte>, o: int, at: int, len: int): (s: JsString)
    requires len >= 0
    ensures |s| <= len
  {
    CStringLength(u8, o + at, len);
    CString(u8, o + at, len)
  }

  /** Where each field of a header lies (its byte offset in the header
      and its width), in the order `readEntry` reads them: name, mode,
      owner, group, size, modification time, checksum, type flag, link
      name, magic and version, owner name, group name, device major and
      minor, and name prefix. */
  const Layout: seq<(int, int)> := [
    (0, 100), (100, 8), (108, 8), (116, 8), (124, 12), (136, 12), (148, 8), (156, 1),
    (157, 100), (257, 8), (265, 32), (297, 32), (329, 8), (337, 8), (345, 155)]

  /** The fields of the header at `o`, each decoded as `readStr` does. */
  function ReadFields(u8: seq<byte>, o: int, layout: seq<(int, int)>): (fs: seq<JsString>)
    ensures |fs| == |layout|
  {
    if layout == [] then [] else [CString(u8, o + layout[0].0, layout[0].1)] + ReadFields(u8, o, layout[1..])
  }

  /** Field `k` is the string decoded at its place in the layout. */
  lemma {:induction false} ReadFieldsIndex(u8: seq<byte>, o: int, layout: seq<(int, int)>, k: int)
    requires 0 <= k < |layout|
    ensures ReadFields(u8, o, layout)[k] == CString(u8, o + layout[k].0, layout[k].1)
  {
    if k > 0 {
      ReadFieldsIndex(u8, o, layout[1..], k - 1);
    }
  }

  /** The numeric fields, each read by `parseInt(_, 8)`. */
  function ParseFields(fs: seq<JsString>): (ns: seq<Option<int>>)
    ensures |ns| == |fs|
  {
    if fs == [] then [] else [ParseOctal(fs[0])] + ParseFields(fs[1..])
  }

  /** Number `k` is field `k` parsed. */
  lemma {:induction false} ParseFieldsIndex(fs: seq<JsString>, k: int)
    requires 0 <= k < |fs|
    ensures ParseFields(fs)[k] == ParseOctal(fs[k])
  {
    if k > 0 {
      ParseFieldsIndex(fs[1..], k - 1);
    }
  }

  /** The entry the header at `o` describes, before any contents. */
  function HeaderAt(u8: seq<byte>, o: int): Entry
  {
    var fs := ReadFields(u8, o, Layout);
    var ns := ParseFields(fs[1..7]);
    Entry(fs[0], ns[0], ns[1], ns[2], ns[3], ns[4], ns[5],
      fs[7], fs[8], fs[10], fs[11], fs[12], fs[13], fs[14], None)
  }

  /** The header at `o` carries the magic of the format (field 9 of the
      layout). */
  predicate HasMagic(u8: seq<byte>, o: int) {
    ReadFields(u8, o, Layout)[9] == Magic
  }

  /** The header at `o` describes a regular file. */
  predicate FileAt(u8: seq<byte>, o: int) {
    HasMagic(u8, o) && HeaderAt(u8, o).typeFlag == FileFlag
  }

  /** The size field of the header at `o`. */
  function SizeField(u8: seq<byte>, o: int): Option<int> {
    HeaderAt(u8, o).size
  }

  /** The fields `readEntry` looks at: the name, the type flag and the
      size. */
  lemma HeaderKeys(u8: seq<byte>, o: int)
    ensures var e := HeaderAt(u8, o);
      && e.filename == Field(u8, o, 0, 100) && e.typeFlag == Field(u8, o, 156, 1)
      && e.size == ParseOctal(Field(u8, o, 124, 12))
      && (HasMagic(u8, o) <==> Field(u8, o, 257, 8) == Magic)
  {
    var fs := ReadFields(u8, o, Layout);
    ReadFieldsIndex(u8, o, Layout, 0);
    ReadFieldsIndex(u8, o, Layout, 4);
    ReadFieldsIndex(u8, o, Layout, 7);
    ReadFieldsIndex(u8, o, Layout, 9);
    ParseFieldsIndex(fs[1..7], 3);
  }

  /** The header fields one by one, at their offsets in the block. */
  lemma HeaderFields(u8: seq<byte>, o: int)
    ensures HasMagic(u8, o) <==> CString(u8, o + 257, 8) == Magic
    ensures HeaderAt(u8, o) == Entry(CString(u8, o, 100),
      ParseOctal(CString(u8, o + 100, 8)), ParseOctal(CString(u8, o + 108, 8)),
      ParseOctal(CString(u8, o + 116, 8)), ParseOctal(CString(u8, o + 124, 12)),
      ParseOctal(CString(u8, o + 136, 12)), ParseOctal(CString(u8, o + 148, 8)),
      CString(u8, o + 156, 1), CString(u8, o + 157, 100), CString(u8, o + 265, 32),
      CString(u8, o + 297, 32), CString(u8, o + 329, 8), CString(u8, o + 337, 8),
      CString(u8, o + 345, 155), None)
  {
    ReadFieldsIndex(u8, o, Layout, 0);
    ReadFieldsIndex(u8, o, Layout, 1);
    ReadFieldsIndex(u8, o, Layout, 2);
    ReadFieldsIndex(u8, o, Layout, 3);
    ReadFieldsIndex(u8, o, Layout, 4);
    ReadFieldsIndex(u8, o, Layout, 5);
    ReadFieldsIndex(u8, o, Layout, 6);
    ReadFieldsIndex(u8, o, Layout, 7);
    ReadFieldsIndex(u8, o, Layout, 8);
    ReadFieldsIndex(u8, o, Layout, 9);
    ReadFieldsIndex(u8, o, Layout, 10);
    ReadFieldsIndex(u8, o, Layout, 11);
    ReadFieldsIndex(u8, o, Layout, 12);
    ReadFieldsIndex(u8, o, Layout, 13);
    ReadFieldsIndex(u8, o, Layout, 14);
    var fs := ReadFields(u8, o, Layout)[1..7];
    ParseFieldsIndex(fs, 0);
    ParseFieldsIndex(fs, 1);
    ParseFieldsIndex(fs, 2);
    ParseFieldsIndex(fs, 3);
    ParseFieldsIndex(fs, 4);
    ParseFieldsIndex(fs, 5);
  }

  /** `readEntry` from cursor `o`. */
  function ReadEntryAt(u8: seq<byte>, o: int): (r: EntryRead)
    ensures r.entry.Ok? && r.entry.value.Some? ==>
      var e := r.entry.value.value;
      || (e.typeFlag == FileFlag && e.contents.Some?)
      || (e.typeFlag == DirectoryFlag && e.contents.None?)
  {
    if o + 512 > |u8| then EntryRead(Ok(None), o)
    else if !HasMagic(u8, o) then EntryRead(Ok(None), o + 265)
    else AfterHeader(u8, HeaderAt(u8, o), AlignedUp(o + 500))
  }

  /** What `readEntry` does with header `e` once the cursor is at
      `hdrEnd`, the block boundary after it. */
  function AfterHeader(u8: seq<byte>, e: Entry, hdrEnd: int): (r: EntryRead)
    requires e.contents == None
    ensures r.entry.Ok? && r.entry.value.Some? ==>
      var e' := r.entry.value.value;
      || (e'.typeFlag == FileFlag && e'.contents.Some?)
      || (e'.typeFlag == DirectoryFlag && e'.contents.None?)
  {
    if e.typeFlag == FileFlag then
      match e.size
      case None => EntryRead(Ok(Some(e.(contents := Some(Subarray(u8, hdrEnd, None))))), 0)
      case Some(n) => EntryRead(Ok(Some(e.(contents := Some(Subarray(u8, hdrEnd, Some(hdrEnd + n)))))), AlignedUp(hdrEnd + n))
    else if e.typeFlag == DirectoryFlag then EntryRead(Ok(Some(e)), hdrEnd)
    else EntryRead(Err(AssertError), hdrEnd)
  }

  /** Past a header with the right magic, `readEntry` goes by the type
      flag alone. A step equation of `ReadEntryAt`. */
  lemma ReadEntryAfterHeader(u8: seq<byte>, o: int)
    requires o + 512 <= |u8| && HasMagic(u8, o)
    ensures ReadEntryAt(u8, o) == AfterHeader(u8, HeaderAt(u8, o), AlignedUp(o + 500))
  {
  }

  /** `readEntry` returns `null` exactly when fewer than 512 bytes remain
      or the magic is wrong, leaving the cursor where it was or just past
      the magic. */
  lemma NoEntry(u8: seq<byte>, o: int)
    ensures var r := ReadEntryAt(u8, o);
      r.entry == Ok(None) <==> (o + 512 > |u8| || !HasMagic(u8, o))
    ensures var r := ReadEntryAt(u8, o);
      r.entry == Ok(None) ==> r.offset == if o + 512 > |u8| then o else o + 265
  {
  }

  /** A header whose type is neither a regular file nor a directory fails
      the assertion. */
  lemma UnknownTypeFails(u8: seq<byte>, o: int)
    requires o + 512 <= |u8| && HasMagic(u8, o)
    requires Field(u8, o, 156, 1) != FileFlag && Field(u8, o, 156, 1) != DirectoryFlag
    ensures ReadEntryAt(u8, o).entry == Err(AssertError)
  {
    HeaderKeys(u8, o);
  }

  /** A directory header at a block boundary consumes exactly its block
      and has no contents. */
  lemma DirectoryBlock(u8: seq<byte>, o: int)
    requires 0 <= o && o % 512 == 0 && o + 1024 <= 0x8000_0000
    requires o + 512 <= |u8| && HasMagic(u8, o) && Field(u8, o, 156, 1) == DirectoryFlag
    ensures var r := ReadEntryAt(u8, o);
      && r.entry.Ok? && r.entry.value.Some? && r.entry.value.value.contents == None
      && r.offset == o + 512
  {
    HeaderKeys(u8, o);
    HeaderBlock(o);
  }

  /** A regular-file header at a block boundary with a size `n` consumes its
      block; the contents are the `n` bytes after it (as many as the
      archive holds), and the cursor ends at the least block boundary at
      or after their end. */
  lemma FileBlocks(u8: seq<byte>, o: int)
    requires 0 <= o && o % 512 == 0 && o + 512 <= |u8| && FileAt(u8, o)
    requires var s := SizeField(u8, o);
      s.Some? && 0 <= s.value && o + 512 + s.value + 511 < 0x8000_0000
    ensures var r := ReadEntryAt(u8, o);
      var n := SizeField(u8, o).value;
      && r.entry.Ok? && r.entry.value.Some?
      && r.entry.value.value.contents == Some(u8[o + 512..Min(o + 512 + n, |u8|)])
      && r.offset % 512 == 0 && o + 512 + n <= r.offset < o + 512 + n + 512
  {
    HeaderKeys(u8, o);
    var n := SizeField(u8, o).value;
    HeaderBlock(o);
    var e := HeaderAt(u8, o);
    assert ReadEntryAt(u8, o) ==
      EntryRead(Ok(Some(e.(contents := Some(Subarray(u8, o + 512, Some(o + 512 + n)))))), AlignedUp(o + 512 + n));
    AlignedUpRounds(o + 512 + n);
    SubarrayForward(u8, o + 512, o + 512 + n);
  }

  /** A regular-file header whose size field does not parse (a blank
      field, for one) sends the cursor back to 0: `offset += NaN` makes it
      `NaN`, and `NaN & ~511` is 0. */
  lemma UnparsedSizeRewinds(u8: seq<byte>, o: int)
    requires o + 512 <= |u8| && FileAt(u8, o) && SizeField(u8, o) == None
    ensures var r := ReadEntryAt(u8, o);
      && r.entry.Ok? && r.entry.value.Some? && r.offset == 0
      && r.entry.value.value.filename == Field(u8, o, 0, 100)
      && r.entry.value.value.typeFlag == FileFlag
      && r.entry.value.value.contents == Some([])
  {
    HeaderKeys(u8, o);
  }

  // ---------------------------------------------------------------------
  // untar
  // ---------------------------------------------------------------------

  /** How the replay ends: at a `null` entry, with an exception, or (in the
      model only) with the entry budget spent. */
  datatype WalkEnd = Finished | Failed(fault: Fault) | OutOfFuel

  /** The nodes `untar` creates, how it ends and where the cursor is. */
  datatype Walk = Walk(nodes: seq<Node>, end: WalkEnd, offset: int)

  /** The call `untar` makes for an entry `readEntry` returned. */
  function NodeOf(e: Entry): (n: Node)
    requires e.typeFlag == FileFlag ==> e.contents.Some?
    ensures n.path == e.filename
    ensures n.FileNode? <==> e.typeFlag == FileFlag
  {
    if e.typeFlag == FileFlag then FileNode(e.filename, e.contents.value) else DirectoryNode(e.filename)
  }

  /** `untar` from cursor `o`, for at most `fuel` entries. */
  function Untarred(u8: seq<byte>, o: int, fuel: nat): (w: Walk)
    ensures |w.nodes| <= fuel
    decreases fuel, 2
  {
    if fuel == 0 then Walk([], OutOfFuel, o) else Round(u8, o, fuel)
  }

  /** One round of the `untar` loop. It only hands over to `RoundBody`:
      the extra level keeps a single unfolding of `Untarred` from already
      reading the entry. */
  function Round(u8: seq<byte>, o: int, fuel: nat): (w: Walk)
    requires fuel > 0
    ensures |w.nodes| <= fuel
    decreases fuel, 1
  {
    RoundBody(u8, o, fuel)
  }

  /** The round itself: read an entry at `o`, and unless it is `null` or
      an exception, add its node and go on. */
  function RoundBody(u8: seq<byte>, o: int, fuel: nat): (w: Walk)
    requires fuel > 0
    ensures |w.nodes| <= fuel
    decreases fuel, 0
  {
    var r := ReadEntryAt(u8, o);
    match r.entry
    case Err(f) => Walk([], Failed(f), r.offset)
    case Ok(None) => Walk([], Finished, r.offset)
    case Ok(Some(e)) =>
      var rest := Untarred(u8, r.offset, fuel - 1);
      Walk([NodeOf(e)] + rest.nodes, rest.end, rest.offset)
  }

  /** Every regular-file header at a block boundary of the archive has a
      size field that reads as a non-negative number below 2^30. */
  ghost predicate SaneSizes(u8: seq<byte>) {
    forall p :: 0 <= p && p % 512 == 0 && FileAt(u8, p) ==>
      SizeField(u8, p).Some? && 0 <= SizeField(u8, p).value <= 0x4000_0000
  }

  /** In an archive of sane sizes every entry read at a block boundary
      moves the cursor on to a later block boundary. */
  lemma EntryAdvances(u8: seq<byte>, o: int)
    requires |u8| <= 0x3000_0000 && SaneSizes(u8)
    requires 0 <= o && o % 512 == 0
    ensures var r := ReadEntryAt(u8, o);
      r.entry.Ok? && r.entry.value.Some? ==> r.offset % 512 == 0 && r.offset >= o + 512
  {
    HeaderKeys(u8, o);
    if o + 512 <= |u8| && HasMagic(u8, o) {
      if FileAt(u8, o) {
        FileBlocks(u8, o);
      } else if Field(u8, o, 156, 1) == DirectoryFlag {
        DirectoryBlock(u8, o);
      }
    }
  }

  /** `untar` goes on after an entry: the entry's node comes first, and the
      rest is the replay from where `readEntry` left the cursor. A step
      equation of `Untarred`, unfolded through its layers. */
  lemma UntarredGoesOn(u8: seq<byte>, o: int, fuel: nat)
    requires fuel > 0
    requires ReadEntryAt(u8, o).entry.Ok? && ReadEntryAt(u8, o).entry.value.Some?
    ensures var r := ReadEntryAt(u8, o);
      var w, rest := Untarred(u8, o, fuel), Untarred(u8, r.offset, fuel - 1);
      && w.nodes == [NodeOf(r.entry.value.value)] + rest.nodes
      && w.end == rest.end && w.offset == rest.offset
  {
    assert Untarred(u8, o, fuel) == RoundBody(u8, o, fuel);
  }

  /** `untar` stops at a `null` entry or an exception, having created no
      node for it. A step equation of `Untarred`. */
  lemma UntarredStops(u8: seq<byte>, o: int, fuel: nat)
    requires fuel > 0
    requires !(ReadEntryAt(u8, o).entry.Ok? && ReadEntryAt(u8, o).entry.value.Some?)
    ensures var r := ReadEntryAt(u8, o);
      Untarred(u8, o, fuel) ==
        Walk([], if r.entry.Err? then Failed(r.entry.fault) else Finished, r.offset)
  {
    assert Untarred(u8, o, fuel) == RoundBody(u8, o, fuel);
  }

  /** The walk `w` with the nodes `done` created before it. */
  function After(done: seq<Node>, w: Walk): Walk {
    Walk(done + w.nodes, w.end, w.offset)
  }

  /** One round of the `untar` loop that creates a node: the node joins the
      ones already created and the walk resumes where `readEntry` left the
      cursor. */
  lemma ResumeAfterEntry(u8: seq<byte>, o: int, fuel: nat, done: seq<Node>, e: Entry, o': int, done': seq<Node>)
    requires fuel > 0
    requires ReadEntryAt(u8, o) == EntryRead(Ok(Some(e)), o')
    requires done' == done + [NodeOf(e)]
    ensures After(done, Untarred(u8, o, fuel)) == After(done', Untarred(u8, o', fuel - 1))
  {
    UntarredGoesOn(u8, o, fuel);
    AppendAssoc(done, [NodeOf(e)], Untarred(u8, o', fuel - 1).nodes);
  }

  /** A round of the `untar` loop that stops ends the walk with the nodes
      already created. */
  lemma ResumeAtStop(u8: seq<byte>, o: int, fuel: nat, done: seq<Node>)
    requires fuel > 0
    requires !(ReadEntryAt(u8, o).entry.Ok? && ReadEntryAt(u8, o).entry.value.Some?)
    ensures var r := ReadEntryAt(u8, o);
      After(done, Untarred(u8, o, fuel)) ==
        Walk(done, if r.entry.Err? then Failed(r.entry.fault) else Finished, r.offset)
  {
    UntarredStops(u8, o, fuel);
    assert done + [] == done;
  }

  /** In an archive of sane sizes `untar` ends by itself (at a `null` entry
      or an exception) within one entry per block of the archive plus
      one. */
  lemma {:induction false} UntarEnds(u8: seq<byte>, o: int, fuel: nat)
    requires |u8| <= 0x3000_0000 && SaneSizes(u8)
    requires 0 <= o && o % 512 == 0
    requires 0 < fuel && |u8| - o < 512 * fuel
    ensures !Untarred(u8, o, fuel).end.OutOfFuel?
    decreases fuel
  {
    var r := ReadEntryAt(u8, o);
    if r.entry.Ok? && r.entry.value.Some? {
      EntryAdvances(u8, o);
      NoEntry(u8, o);
      UntarEnds(u8, r.offset, fuel - 1);
      UntarredGoesOn(u8, o, fuel);
    } else {
      UntarredStops(u8, o, fuel);
    }
  }

  /** `n` copies of `x`. */
  function Repeat<T>(x: T, n: nat): (r: seq<T>)
    ensures |r| == n
  {
    if n == 0 then [] else [x] + Repeat(x, n - 1)
  }

  /** An archive whose first entry is a regular file with an unparsable
      size never lets `untar` finish: every round reads that entry again
      and adds the same empty file again. */
  lemma {:induction false} UntarRepeats(u8: seq<byte>, fuel: nat)
    requires 512 <= |u8| && FileAt(u8, 0) && SizeField(u8, 0) == None
    ensures var w := Untarred(u8, 0, fuel);
      w.end == OutOfFuel && w.nodes == Repeat(FileNode(Field(u8, 0, 0, 100), []), fuel)
    decreases fuel
  {
    if fuel > 0 {
      UnparsedSizeRewinds(u8, 0);
      UntarRepeats(u8, fuel - 1);
      UntarredGoesOn(u8, 0, fuel);
    }
  }

  // ---------------------------------------------------------------------
  // Archives as a writer lays them out
  // ---------------------------------------------------------------------

  /** What a tar writer stores: a regular file with its contents, or a
      directory. */
  datatype Member = FileMember(path: seq<byte>, data: seq<byte>) | DirectoryMember(path: seq<byte>)

  /** A member whose name fits the 100-byte name field and holds no zero
      byte. */
  predicate Writable(m: Member) {
    |m.path| <= 100 && forall k :: 0 <= k < |m.path| ==> m.path[k] != 0
  }

  /** The magic and version fields as bytes: "ustar" and two spaces, then
      the terminating zero. */
  const UstarMagic: seq<byte> := [0x75, 0x73, 0x74, 0x61, 0x72, 0x20, 0x20]

  /** The size a member's header records: the length of a file's contents,
      0 for a directory. */
  function SizeOf(m: Member): nat {
    if m.FileMember? then |m.data| else 0
  }

  /** The type flag byte of a member's header. */
  function TypeByte(m: Member): byte {
    if m.FileMember? then 0x30 else 0x35
  }

  /** Byte `k` of a member's header block: the name at 0, the size in octal
      digits at 124, the type flag at 156, the magic at 257, and zero
      everywhere else (so the other numeric fields are blank and every text
      field ends with a zero byte). */
  function HeaderByte(m: Member, k: int): byte {
    var digits := OctalDigits(SizeOf(m));
    if 0 <= k < |m.path| then m.path[k]
    else if 124 <= k < 136 && k - 124 < |digits| then digits[k - 124]
    else if k == 156 then TypeByte(m)
    else if 257 <= k < 264 then UstarMagic[k - 257]
    else 0
  }

  /** The length of the contents rounded up to whole blocks. */
  function Padded(n: nat): nat {
    n + (512 - n % 512) % 512
  }

  /** A member's blocks: the header block, then a file's contents padded
      with zeros to the next block boundary. */
  function Block(m: Member): (b: seq<byte>)
    ensures |b| == 512 + Padded(SizeOf(m))
  {
    seq(512 + Padded(SizeOf(m)), k =>
      if k < 512 then HeaderByte(m, k)
      else if m.FileMember? && k - 512 < |m.data| then m.data[k - 512]
      else 0)
  }

  /** The archive of the members, in order. */
  function Archive(ms: seq<Member>): seq<byte> {
    if ms == [] then [] else Block(ms[0]) + Archive(ms[1..])
  }

  /** The node `untar` should create for a member. */
  function MemberNode(m: Member): Node {
    match m
    case FileMember(path, data) => FileNode(path, data)
    case DirectoryMember(path) => DirectoryNode(path)
  }

  function MemberNodes(ms: seq<Member>): seq<Node> {
    if ms == [] then [] else [MemberNode(ms[0])] + MemberNodes(ms[1..])
  }

  /** `8^k`. */
  function Pow8(k: nat): nat {
    if k == 0 then 1 else 8 * Pow8(k - 1)
  }

  /** A number below `8^k` has at most `k` octal digits. */
  lemma {:induction false} OctalDigitsFit(n: nat, k: nat)
    requires 1 <= k && n < Pow8(k)
    ensures |OctalDigits(n)| <= k
  {
    if n >= 8 {
      assert k >= 2;
      assert n / 8 < Pow8(k - 1);
      OctalDigitsFit(n / 8, k - 1);
    }
  }

  /** Padding reaches the least block boundary at or after the contents. */
  lemma PaddedRounds(n: nat)
    ensures Padded(n) % 512 == 0 && n <= Padded(n) < n + 512
  {
    var r := n % 512;
    var q := n / 512;
    assert n == 512 * q + r && 0 <= r < 512;
    if r == 0 {
      assert Padded(n) == 512 * q;
    } else {
      assert Padded(n) == 512 * (q + 1);
    }
  }

  /** Two block boundaries within 512 bytes of each other are the same. */
  lemma SameBoundary(a: int, b: int, x: int)
    requires a % 512 == 0 && b % 512 == 0
    requires x <= a < x + 512 && x <= b < x + 512
    ensures a == b
  {
    var qa, qb := a / 512, b / 512;
    assert a == 512 * qa && b == 512 * qb;
    assert -512 < 512 * (qa - qb) < 512;
  }

  /** The header of member `m` lies at `o`. */
  ghost predicate HeaderIn(u8: seq<byte>, o: int, m: Member) {
    0 <= o && o + 512 <= |u8| && forall k :: 0 <= k < 512 ==> u8[o + k] == HeaderByte(m, k)
  }

  /** The name field reads back as the member's name. */
  lemma NameReads(u8: seq<byte>, o: int, m: Member)
    requires Writable(m) && HeaderIn(u8, o, m)
    ensures Field(u8, o, 0, 100) == m.path
  {
    var p := m.path;
    forall k | 0 <= k < |p| ensures u8[o + k] == p[k] {
      assert u8[o + k] == HeaderByte(m, k);
    }
    assert u8[o..o + |p|] == p;
    if |p| < 100 {
      assert u8[o + |p|] == HeaderByte(m, |p|);
    }
    DecodeText(u8, o, o + 100, p);
  }

  /** The size field reads back as the member's size. */
  lemma SizeReads(u8: seq<byte>, o: int, m: Member)
    requires Writable(m) && HeaderIn(u8, o, m) && SizeOf(m) < 0x4000_0000
    ensures ParseOctal(Field(u8, o, 124, 12)) == Some(SizeOf(m))
  {
    var n := SizeOf(m);
    var d := OctalDigits(n);
    assert Pow8(10) == 0x4000_0000;
    OctalDigitsFit(n, 10);
    var text: seq<byte> := seq(|d|, k requires 0 <= k < |d| => d[k]);
    forall k | 0 <= k < |d| ensures u8[o + 124 + k] == text[k] {
      assert u8[o + (124 + k)] == HeaderByte(m, 124 + k);
    }
    assert u8[o + 124..o + 124 + |d|] == text;
    assert u8[o + 124 + |d|] == HeaderByte(m, 124 + |d|);
    DecodeText(u8, o + 124, o + 136, text);
    assert Field(u8, o, 124, 12) == d;
    ParseRendered(n);
  }

  /** The rendered digits of `n`, alone in a field, read back as `n`. */
  lemma ParseRendered(n: nat)
    ensures ParseOctal(OctalDigits(n)) == Some(n)
  {
    var d := OctalDigits(n);
    assert TrimStart(d) == d;
    ParseDigitsOf(d, []);
    assert d + [] == d;
    OctalValueDigits(n);
  }

  /** The type flag field reads back as the member's type flag. */
  lemma TypeReads(u8: seq<byte>, o: int, m: Member)
    requires Writable(m) && HeaderIn(u8, o, m)
    ensures Field(u8, o, 156, 1) == [TypeByte(m)]
  {
    assert u8[o + 156] == HeaderByte(m, 156);
    assert u8[o + 156..o + 157] == [TypeByte(m)];
    CStringText(u8, o + 156, [TypeByte(m)]);
  }

  /** The magic field reads back as the format's magic. */
  lemma MagicReads(u8: seq<byte>, o: int, m: Member)
    requires Writable(m) && HeaderIn(u8, o, m)
    ensures HasMagic(u8, o)
  {
    forall k | 0 <= k < 7 ensures u8[o + 257 + k] == UstarMagic[k] {
      assert u8[o + (257 + k)] == HeaderByte(m, 257 + k);
    }
    assert u8[o + 257..o + 264] == UstarMagic;
    assert u8[o + 264] == HeaderByte(m, 264);
    DecodeText(u8, o + 257, o + 265, UstarMagic);
    HeaderKeys(u8, o);
  }

  /** The header block of a member reads back as its name, type flag and
      size, under the format's magic. */
  lemma MemberHeader(u8: seq<byte>, o: int, m: Member)
    requires Writable(m) && 0 <= o && o + |Block(m)| <= |u8|
    requires u8[o..o + |Block(m)|] == Block(m) && SizeOf(m) < 0x4000_0000
    ensures HasMagic(u8, o)
    ensures var h := HeaderAt(u8, o);
      h.filename == m.path && h.typeFlag == [TypeByte(m)] && h.size == Some(SizeOf(m))
  {
    var b := Block(m);
    forall k | 0 <= k < 512 ensures u8[o + k] == HeaderByte(m, k) {
      assert u8[o + k] == b[k];
    }
    assert HeaderIn(u8, o, m);
    HeaderKeys(u8, o);
    NameReads(u8, o, m);
    SizeReads(u8, o, m);
    TypeReads(u8, o, m);
    MagicReads(u8, o, m);
  }

  /** The contents of a file member follow its header block. */
  lemma MemberContents(u8: seq<byte>, o: int, path: seq<byte>, data: seq<byte>)
    requires 0 <= o && o + |Block(FileMember(path, data))| <= |u8|
    requires u8[o..o + |Block(FileMember(path, data))|] == Block(FileMember(path, data))
    ensures u8[o + 512..o + 512 + |data|] == data
  {
    var b := Block(FileMember(path, data));
    forall k | 0 <= k < |data| ensures u8[o + 512 + k] == data[k] {
      assert u8[o + (512 + k)] == b[512 + k];
    }
  }

  /** Aligning the end of a file's contents at a block boundary lands
      where the writer's padding ends. */
  lemma BlockEnd(o: int, n: nat)
    requires 0 <= o && o % 512 == 0 && o + 512 + n + 511 < 0x8000_0000
    ensures AlignedUp(o + 512 + n) == o + 512 + Padded(n)
  {
    AlignedUpRounds(o + 512 + n);
    PaddedRounds(n);
    var q, p := o / 512, Padded(n) / 512;
    assert o == 512 * q && Padded(n) == 512 * p;
    assert o + 512 + Padded(n) == 512 * (q + 1 + p);
    SameBoundary(AlignedUp(o + 512 + n), o + 512 + Padded(n), o + 512 + n);
  }

  /** `readEntry` at a block boundary where a member's blocks lie returns
      that member's entry, and leaves the cursor just past its blocks. */
  lemma ReadMember(u8: seq<byte>, o: int, m: Member)
    requires Writable(m) && 0 <= o && o % 512 == 0
    requires o + |Block(m)| <= |u8| <= 0x3000_0000
    requires u8[o..o + |Block(m)|] == Block(m)
    ensures var r := ReadEntryAt(u8, o);
      && r.entry.Ok? && r.entry.value.Some?
      && NodeOf(r.entry.value.value) == MemberNode(m)
      && r.offset == o + |Block(m)|
  {
    MemberHeader(u8, o, m);
    HeaderBlock(o);
    var h := HeaderAt(u8, o);
    assert ReadEntryAt(u8, o) == AfterHeader(u8, h, o + 512);
    match m
    case DirectoryMember(_) =>
      assert h.typeFlag == DirectoryFlag;
    case FileMember(path, data) =>
      var n := |data|;
      assert h.typeFlag == FileFlag;
      MemberContents(u8, o, path, data);
      SubarrayForward(u8, o + 512, o + 512 + n);
      BlockEnd(o, n);
  }

  /** `untar` from a block boundary where the members' blocks run to the
      end of the archive creates their nodes, in order, and finishes at
      the end of the archive. */
  lemma {:induction false} UntarFrom(u8: seq<byte>, o: int, ms: seq<Member>, fuel: nat)
    requires forall i :: 0 <= i < |ms| ==> Writable(ms[i])
    requires 0 <= o && o % 512 == 0 && |u8| <= 0x3000_0000
    requires o + |Archive(ms)| == |u8| && u8[o..] == Archive(ms)
    requires fuel > |ms|
    ensures Untarred(u8, o, fuel) == Walk(MemberNodes(ms), Finished, |u8|)
    decreases ms
  {
    if ms == [] {
      UntarredStops(u8, o, fuel);
    } else {
      ArchiveSplit(u8, o, ms);
      MemberRound(u8, o, ms[0], fuel);
      UntarFrom(u8, o + |Block(ms[0])|, ms[1..], fuel - 1);
    }
  }

  /** One round of `untar` over a member's blocks creates its node and
      resumes just past them. */
  lemma MemberRound(u8: seq<byte>, o: int, m: Member, fuel: nat)
    requires Writable(m) && 0 <= o && o % 512 == 0 && fuel > 0
    requires o + |Block(m)| <= |u8| <= 0x3000_0000
    requires u8[o..o + |Block(m)|] == Block(m)
    ensures Untarred(u8, o, fuel) == After([MemberNode(m)], Untarred(u8, o + |Block(m)|, fuel - 1))
  {
    ReadMember(u8, o, m);
    var r := ReadEntryAt(u8, o);
    var next := o + |Block(m)|;
    assert r.offset == next;
    assert NodeOf(r.entry.value.value) == MemberNode(m);
    UntarredGoesOn(u8, o, fuel);
    var w, rest := Untarred(u8, o, fuel), Untarred(u8, next, fuel - 1);
    assert w.nodes == [MemberNode(m)] + rest.nodes;
    assert w.end == rest.end && w.offset == rest.offset;
  }

  /** Where an archive lies, its first member's blocks come first and the
      rest of the archive starts at the next block boundary. */
  lemma ArchiveSplit(u8: seq<byte>, o: int, ms: seq<Member>)
    requires ms != [] && 0 <= o && o % 512 == 0
    requires o + |Archive(ms)| == |u8| && u8[o..] == Archive(ms)
    ensures var b := Block(ms[0]);
      && u8[o..o + |b|] == b
      && o + |b| + |Archive(ms[1..])| == |u8| && u8[o + |b|..] == Archive(ms[1..])
      && (o + |b|) % 512 == 0
  {
    var b := Block(ms[0]);
    assert Archive(ms) == b + Archive(ms[1..]);
    assert u8[o..o + |b|] == u8[o..][..|b|];
    assert u8[o + |b|..] == u8[o..][|b|..];
    var p := Padded(SizeOf(ms[0]));
    PaddedRounds(SizeOf(ms[0]));
    var q, r := o / 512, p / 512;
    assert o == 512 * q && p == 512 * r;
    assert o + |b| == 512 * (q + 1 + r);
  }

  /** The archive a writer builds from members with writable names untars
      to exactly their nodes, in order: a file node with its contents for
      each file and a directory node for each directory; the last round
      reads `null` at the end of the archive. */
  lemma UntarArchive(ms: seq<Member>)
    requires forall i :: 0 <= i < |ms| ==> Writable(ms[i])
    requires |Archive(ms)| <= 0x3000_0000
    ensures Untarred(Archive(ms), 0, |ms| + 1) == Walk(MemberNodes(ms), Finished, |Archive(ms)|)
  {
    UntarFrom(Archive(ms), 0, ms, |ms| + 1);
  }

  // ---------------------------------------------------------------------
  // The Tar object
  // ---------------------------------------------------------------------

  /** A reader over an archive's bytes with its cursor. */
  class Tar {
    const u8: seq<byte>
    var offset: int

    constructor (buffer: seq<byte>)
      ensures u8 == buffer && offset == 0
    {
      u8 := buffer;
      offset := 0;
    }

    /** `readStr(len)`: decode the field at the cursor and move past it. */
    method ReadStr(len: int) returns (s: JsString)
      modifies this`offset
      ensures s == CString(u8, old(offset), len) && offset == old(offset) + len
    {
      s := CStrings.ReadStr(u8, offset, len);
      offset := offset + len;
    }

    /** `readOctal(len)`: the field at the cursor through `parseInt(_, 8)`. */
    method ReadOctal(len: int) returns (n: Option<int>)
      modifies this`offset
      ensures n == ParseOctal(CString(u8, old(offset), len)) && offset == old(offset) + len
    {
      var s := ReadStr(len);
      n := ParseOctal(s);
    }

    /** `alignUp()`: move the cursor to the next block boundary. */
    method AlignUp()
      modifies this`offset
      ensures offset == AlignedUp(old(offset))
    {
      offset := AlignedUp(offset);
    }

    /** `readEntry()`. */
    method ReadEntry() returns (r: Result<Option<Entry>>)
      modifies this`offset
      ensures EntryRead(r, offset) == ReadEntryAt(u8, old(offset))
    {
      if offset + 512 > |u8| {
        return Ok(None);
      }
      var header := ReadHeader();
      if header == None {
        return Ok(None);
      }
      AlignUp();
      ReadEntryAfterHeader(u8, old(offset));
      r := ReadContents(header.value);
    }

    /** The field reads of `readEntry()`: the header at the cursor, or None
        (with the cursor just past the magic) when the magic is wrong. */
    method ReadHeader() returns (header: Option<Entry>)
      modifies this`offset
      ensures header == (if HasMagic(u8, old(offset)) then Some(HeaderAt(u8, old(offset))) else None)
      ensures offset == old(offset) + if header == None then 265 else 500
    {
      var filename := ReadStr(100);
      var mode := ReadStr(8);
      var owner := ReadStr(8);
      var group := ReadStr(8);
      var size := ReadStr(12);
      var mtim := ReadStr(12);
      var checksum := ReadStr(8);
      var typeFlag := ReadStr(1);
      var linkname := ReadStr(100);
      var magic := ReadStr(8);
      HeaderFields(u8, old(offset));
      if magic != Magic {
        return None;
      }
      var ownerName := ReadStr(32);
      var groupName := ReadStr(32);
      var devMajor := ReadStr(8);
      var devMinor := ReadStr(8);
      var filenamePrefix := ReadStr(155);
      return Some(Entry(filename, ParseOctal(mode), ParseOctal(owner), ParseOctal(group), ParseOctal(size), ParseOctal(mtim), ParseOctal(checksum), typeFlag, linkname,
        ownerName, groupName, devMajor, devMinor, filenamePrefix, None));
    }

    /** The rest of `readEntry()` once the header `entry` is read and the
        cursor is at the block boundary after it: a regular file takes its
        contents and moves the cursor past them, a directory takes nothing,
        and any other type fails the assertion. */
    method ReadContents(entry: Entry) returns (r: Result<Option<Entry>>)
      requires entry.contents == None
      modifies this`offset
      ensures EntryRead(r, offset) == AfterHeader(u8, entry, old(offset))
    {
      if entry.typeFlag == FileFlag {
        match entry.size {
          case None =>
            r := Ok(Some(entry.(contents := Some(Subarray(u8, offset, None)))));
            // `offset += NaN` is NaN, which `alignUp` turns into 0.
            offset := 0;
          case Some(n) =>
            r := Ok(Some(entry.(contents := Some(Subarray(u8, offset, Some(offset + n))))));
            offset := offset + n;
            AlignUp();
        }
      } else if entry.typeFlag == DirectoryFlag {
        r := Ok(Some(entry));
      } else {
        r := Err(AssertError);
      }
    }

    /** One round of the `while (entry = this.readEntry())` loop of
        `untar(memfs)`: read an entry and add its node, or report how the
        loop ends. With `k` rounds left, the replay from the cursor is the
        node added followed by the replay of `k - 1` rounds from where the
        cursor is now, or it ends here. */
    method UntarEntry(fs: MemFS, ghost k: nat) returns (stop: Option<WalkEnd>)
      requires k > 0
      modifies this`offset, fs`nodes
      ensures stop.None? ==>
        After(old(fs.nodes), Untarred(u8, old(offset), k)) == After(fs.nodes, Untarred(u8, offset, k - 1))
      ensures stop.Some? ==>
        After(old(fs.nodes), Untarred(u8, old(offset), k)) == Walk(fs.nodes, stop.value, offset)
    {
      var entry := ReadEntry();
      match entry {
        case Err(f) =>
          ResumeAtStop(u8, old(offset), k, fs.nodes);
          return Some(Failed(f));
        case Ok(None) =>
          ResumeAtStop(u8, old(offset), k, fs.nodes);
          return Some(Finished);
        case Ok(Some(e)) =>
          if e.typeFlag == FileFlag {
            fs.AddFile(e.filename, e.contents.value);
          } else {
            fs.AddDirectory(e.filename);
          }
          ResumeAfterEntry(u8, old(offset), k, old(fs.nodes), e, offset, fs.nodes);
          return None;
      }
    }

    /** `untar(memfs)`, replaying at most `fuel` entries: each regular file
      becomes an `addFile` and each directory an `addDirectory`, in archive
      order, until `readEntry` returns `null` or throws. */
    method Untar(fs: MemFS, fuel: nat) returns (end: WalkEnd)
      modifies this`offset, fs`nodes
      ensures var w := Untarred(u8, old(offset), fuel);
        fs.nodes == old(fs.nodes) + w.nodes && end == w.end && offset == w.offset
    {
      var n := 0;
      while n < fuel
        invariant 0 <= n <= fuel
        invariant After(old(fs.nodes), Untarred(u8, old(offset), fuel)) == After(fs.nodes, Untarred(u8, offset, fuel - n))
      {
        var stop := UntarEntry(fs, fuel - n);
        if stop.Some? {
          return stop.value;
        }
        n := n + 1;
      }
      assert fs.nodes + [] == fs.nodes;
      return OutOfFuel;
    }
  }
}
