/** The free function `readStr` of the runtime: decode the bytes of a
    typed array into a string, one character per byte, stopping before the
    first zero byte or at the end of the requested range. */
module CStrings {
  import opened Base

  /** `u8[i]` on a typed array: the element, or `undefined` (None) outside
      the array's bounds. */
  function ElementAt(u8: seq<byte>, i: int): (v: Option<byte>)
    ensures v.Some? <==> 0 <= i < |u8|
    ensures v.Some? ==> v.value == u8[i]
  {
    if 0 <= i < |u8| then Some(u8[i]) else None
  }

  /** The loop condition `u8[i] != 0`. In JavaScript `undefined != 0`
      holds, so reading past the end of the array does not stop the loop. */
  predicate NotNul(u8: seq<byte>, i: int) {
    ElementAt(u8, i) != Some(0)
  }

  /** `String.fromCharCode(u8[i])`: the element itself, and code unit 0 for
      `undefined` (which converts to NaN and then to 0). */
  function CharAt(u8: seq<byte>, i: int): (c: CodeUnit)
    ensures c < 0x100
    ensures 0 <= i < |u8| ==> c == u8[i]
  {
    match ElementAt(u8, i)
    case Some(b) => b
    case None => 0
  }

  /** The end of the scanned range: `o + len`, or the array's length when
      `len` is the default -1. */
  function ScanEnd(u8: seq<byte>, o: int, len: int): int {
    if len != -1 then o + len else |u8|
  }

  /** The characters decoded from index `i` while `i < end` and the byte is
      not zero. */
  function Decode(u8: seq<byte>, i: int, end: int): (s: JsString)
    decreases end - i
    ensures |s| <= Max(0, end - i)
  {
    if i < end && NotNul(u8, i) then [CharAt(u8, i)] + Decode(u8, i + 1, end) else []
  }

  /** The decoded string is characterised completely: every character is
      the byte at its position, none of those bytes is zero, and the scan
      stopped at `end` or at a zero byte. */
  lemma {:induction false} DecodeSpec(u8: seq<byte>, i: int, end: int)
    ensures var s := Decode(u8, i, end);
      && (forall k :: 0 <= k < |s| ==> s[k] == CharAt(u8, i + k) && NotNul(u8, i + k))
      && (i + |s| >= end || !NotNul(u8, i + |s|))
    decreases end - i
  {
    if i < end && NotNul(u8, i) {
      DecodeSpec(u8, i + 1, end);
      var s := Decode(u8, i, end);
      var t := Decode(u8, i + 1, end);
      assert s == [CharAt(u8, i)] + t;
      forall k | 0 <= k < |s|
        ensures s[k] == CharAt(u8, i + k) && NotNul(u8, i + k)
      {
        if k > 0 {
          assert s[k] == t[k - 1];
          assert t[k - 1] == CharAt(u8, (i + 1) + (k - 1)) && NotNul(u8, (i + 1) + (k - 1));
        }
      }
    }
  }

  /** What `readStr(u8, o, len)` returns. */
  function CString(u8: seq<byte>, o: int, len: int): JsString {
    Decode(u8, o, ScanEnd(u8, o, len))
  }

  /** `readStr(u8, o, len)`: the loop that builds the string. */
  method ReadStr(u8: seq<byte>, o: int, len: int) returns (str: JsString)
    ensures str == CString(u8, o, len)
  {
    str := [];
    var end := |u8|;
    if len != -1 {
      end := o + len;
    }
    var i := o;
    while i < end && ElementAt(u8, i) != Some(0)
      invariant o <= i
      invariant str + Decode(u8, i, end) == Decode(u8, o, end)
      decreases end - i
    {
      DecodeStep(u8, str, i, end);
      str := str + [CharAt(u8, i)];
      i := i + 1;
    }
    assert Decode(u8, i, end) == [];
  }

  /** One turn of the loop moves a character from the rest onto the string
      built so far. */
  lemma DecodeStep(u8: seq<byte>, str: JsString, i: int, end: int)
    requires i < end && NotNul(u8, i)
    ensures str + Decode(u8, i, end) == (str + [CharAt(u8, i)]) + Decode(u8, i + 1, end)
  {
    assert Decode(u8, i, end) == [CharAt(u8, i)] + Decode(u8, i + 1, end);
  }

  /** The result is never longer than a given non-negative `len`, nor longer
      than the rest of the array when `len` is -1. */
  lemma CStringLength(u8: seq<byte>, o: int, len: int)
    requires len >= -1
    ensures len >= 0 ==> |CString(u8, o, len)| <= len
    ensures len == -1 ==> |CString(u8, o, len)| <= Max(0, |u8| - o)
  {
  }

  /** A string decoded inside the array depends only on the bytes of the
      scanned range. */
  lemma {:induction false} DecodeLocal(u8: seq<byte>, v8: seq<byte>, i: int, end: int)
    requires 0 <= i
    requires end <= |u8| && end <= |v8|
    requires forall k :: i <= k < end ==> u8[k] == v8[k]
    ensures Decode(u8, i, end) == Decode(v8, i, end)
    decreases end - i
  {
    if i < end {
      DecodeLocal(u8, v8, i + 1, end);
    }
  }

  /** A decoded field holding `text` followed by a zero byte (or filling
      the whole field) reads back as `text`. */
  lemma {:induction false} DecodeText(u8: seq<byte>, i: int, end: int, text: seq<byte>)
    requires 0 <= i && i + |text| <= end <= |u8|
    requires u8[i..i + |text|] == text
    requires forall k :: 0 <= k < |text| ==> text[k] != 0
    requires i + |text| < end ==> u8[i + |text|] == 0
    ensures Decode(u8, i, end) == text
    decreases |text|
  {
    if text != [] {
      assert u8[i + 1..i + 1 + |text[1..]|] == text[1..];
      DecodeText(u8, i + 1, end, text[1..]);
    }
  }

  /** `readStr(u8, o, |text|)` over a range that holds `text`, with no
      zero byte in it, returns `text`. */
  lemma CStringText(u8: seq<byte>, o: int, text: seq<byte>)
    requires 0 <= o && o + |text| <= |u8|
    requires u8[o..o + |text|] == text
    requires forall k :: 0 <= k < |text| ==> text[k] != 0
    ensures CString(u8, o, |text|) == text
  {
    DecodeText(u8, o, o + |text|, text);
  }
}
